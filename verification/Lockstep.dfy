/** The fronthaul receiver stays in lockstep with the sender: over every legal delivery order the
    n-th return of the receiver reports the sender's n-th subframe, and not before that subframe has
    completely arrived. */
module Lockstep {
  import opened BitMasks
  import opened FrameParms
  import opened SymbolLoops
  import opened Fronthaul

  // ---------------------------------------------------------------- what a mask knows

  ghost function SymbolsOf(log: seq<Delivery>, a: nat): set<nat> {
    set d | d in log && d.occ == a && d.kind.Symbol? :: d.kind.number
  }

  /** Mask `m` records exactly what has arrived of subframe `a`. */
  ghost predicate Records(fp: Parms, log: seq<Delivery>, a: nat, m: nat)
    requires Valid(fp)
  {
    if IsTickSubframe(fp, SfOf(a)) then
      m == if Delivery(a, Tick) in log then TICK_MASK else 0
    else
      Bits(m) == SymbolsOf(log, a)
  }

  /** The receiver's invariant while it awaits subframe `w` of a sender that started at `a0`, with the
      deliveries `p` consumed. */
  ghost predicate Awaiting(fp: Parms, a0: nat, w: nat, p: seq<Delivery>, masks: seq<nat>)
    requires Valid(fp)
  {
    && |masks| == 10 && a0 <= w
    && (forall d {:trigger d in p} :: d in p && IsData(d.kind) ==>
          a0 <= d.occ < w + 10 && Sends(fp, SfOf(d.occ), d.kind))
    && (forall a :: a0 <= a < w ==> Complete(fp, p, a))
    && (forall a {:trigger Records(fp, p, a, masks[SfOf(a)])} :: w <= a < w + 10 ==> Records(fp, p, a, masks[SfOf(a)]))
  }

  lemma TickMaskIsFull(n: nat)
    requires 1 <= n <= 16
    ensures 0 < Full(n) <= TICK_MASK
  {
    Pow2Monotone(n, 16);
    assert Pow2(16) == 0x1_0000 by {
      assert Pow2(4) == 16;
      assert Pow2(8) == 256;
      assert Pow2(12) == 4096;
    }
    Pow2Monotone(1, n);
    assert Pow2(1) == 2;
  }

  lemma {:induction false} Pow2Monotone(m: nat, n: nat)
    requires m <= n
    ensures Pow2(m) <= Pow2(n)
    decreases n
  {
    if m < n { Pow2Monotone(m, n - 1); }
  }

  /** The guard of the receive loop: the awaited mask is full exactly when the subframe has completely
      arrived. */
  lemma FullIffComplete(fp: Parms, a0: nat, w: nat, p: seq<Delivery>, masks: seq<nat>)
    requires Valid(fp) && Awaiting(fp, a0, w, p, masks)
    ensures masks[SfOf(w)] >= FullMask(fp, SfOf(w)) <==> Complete(fp, p, w)
  {
    var m := masks[SfOf(w)];
    assert Records(fp, p, w, m);
    if IsTickSubframe(fp, SfOf(w)) {
      TickMaskIsFull(fp.ulSymbolsInS);
      TickMaskIsFull(fp.symbolsPerTti);
      assert Sends(fp, SfOf(w), Tick);
    } else {
      var n := fp.symbolsPerTti;
      assert FullMask(fp, SfOf(w)) == Full(n);
      BelowFullIff(m, n);
      assert Bits(m) <= Range(n);
      if Complete(fp, p, w) {
        forall s | s in Range(n) ensures s in Bits(m) {
          assert Sends(fp, SfOf(w), Symbol(s));
          assert Delivery(w, Symbol(s)) in p;
        }
      }
      if Bits(m) == Range(n) {
        forall k | Sends(fp, SfOf(w), k) ensures Delivery(w, k) in p {
          assert k.number in SymbolsOf(p, w);
        }
      }
    }
  }

  /** A packet that arrives while the awaited subframe is incomplete belongs to the next ten. */
  lemma InWindow(fp: Parms, a0: nat, w: nat, log: seq<Delivery>, i: nat, masks: seq<nat>)
    requires Valid(fp) && Legal(fp, a0, log) && i < |log| && IsData(log[i].kind)
    requires Awaiting(fp, a0, w, log[..i], masks) && !Complete(fp, log[..i], w)
    ensures w <= log[i].occ < w + 10
    ensures log[i] !in log[..i]
  {
    var d := log[i];
    LegalAt(fp, a0, log, i);
    assert d.occ < w ==> Complete(fp, log[..i], d.occ);
  }

  lemma SameSubframe(w: nat, a: nat, b: nat)
    requires w <= a < w + 10 && w <= b < w + 10 && SfOf(a) == SfOf(b)
    ensures a == b
  {
  }

  /** One received packet keeps the masks exact. */
  lemma ReceiveKeeps(fp: Parms, a0: nat, w: nat, log: seq<Delivery>, i: nat, masks: seq<nat>)
    requires Valid(fp) && Legal(fp, a0, log) && i < |log|
    requires Awaiting(fp, a0, w, log[..i], masks) && !Complete(fp, log[..i], w)
    ensures Awaiting(fp, a0, w, log[..i + 1], Apply(masks, Wire(log[i])))
  {
    var d, p, q := log[i], log[..i], log[..i + 1];
    var masks' := Apply(masks, Wire(d));
    assert q == p + [d];
    if IsData(d.kind) { InWindow(fp, a0, w, log, i, masks); }
    LegalAt(fp, a0, log, i);
    forall a | a0 <= a < w ensures Complete(fp, q, a) { assert Complete(fp, p, a); }
    forall a | w <= a < w + 10 ensures Records(fp, q, a, masks'[SfOf(a)]) {
      assert Records(fp, p, a, masks[SfOf(a)]);
      if IsData(d.kind) && a == d.occ {
        RecordsArrival(fp, p, d, masks[SfOf(a)]);
      } else {
        if IsData(d.kind) && SfOf(a) == SfOf(d.occ) { SameSubframe(w, a, d.occ); }
        RecordsOther(fp, p, d, a, masks[SfOf(a)]);
      }
    }
  }

  lemma RecordsArrival(fp: Parms, p: seq<Delivery>, d: Delivery, m: nat)
    requires Valid(fp) && IsData(d.kind) && Sends(fp, SfOf(d.occ), d.kind) && Records(fp, p, d.occ, m)
    ensures Records(fp, p + [d], d.occ, if d.kind.Symbol? then Or(m, Pow2(d.kind.number)) else TICK_MASK)
  {
    if d.kind.Symbol? {
      SetAndClear(m, d.kind.number);
      assert d in p + [d];
      assert SymbolsOf(p + [d], d.occ) == SymbolsOf(p, d.occ) + {d.kind.number};
    }
  }

  lemma RecordsOther(fp: Parms, p: seq<Delivery>, d: Delivery, a: nat, m: nat)
    requires Valid(fp) && Records(fp, p, a, m) && (a != d.occ || !IsData(d.kind))
    ensures Records(fp, p + [d], a, m)
  {
    assert SymbolsOf(p + [d], a) == SymbolsOf(p, a);
  }

  /** Returning a complete subframe and clearing its mask moves the window on by one. */
  lemma ReturnKeeps(fp: Parms, a0: nat, w: nat, p: seq<Delivery>, masks: seq<nat>)
    requires Valid(fp) && Awaiting(fp, a0, w, p, masks) && Complete(fp, p, w)
    ensures Awaiting(fp, a0, w + 1, p, masks[SfOf(w) := 0])
  {
    forall a | w + 1 <= a < w + 11 ensures Records(fp, p, a, masks[SfOf(w) := 0][SfOf(a)]) {
      if a == w + 10 {
        ZeroIffEmpty(0);
        assert SfOf(a) == SfOf(w);
        assert SymbolsOf(p, a) == {};
      } else {
        if SfOf(a) == SfOf(w) { SameSubframe(w, a, w); }
        assert Records(fp, p, a, masks[SfOf(a)]);
      }
    }
  }

  /** A whole receive loop: the packets up to delivery `e`, none of which completes the awaited subframe
      before the last, leave the masks `m`. */
  lemma {:induction false} ScanKeeps(fp: Parms, a0: nat, w: nat, log: seq<Delivery>, c: nat, e: nat,
                                     masks: seq<nat>, m: seq<nat>)
    requires Valid(fp) && Legal(fp, a0, log) && c <= e <= |log|
    requires Awaiting(fp, a0, w, log[..c], masks)
    requires NotFull(SfOf(w), FullMask(fp, SfOf(w)), masks, WireAll(log)[c..], e - c)
    requires m == Fold(masks, WireAll(log)[c..][..e - c])
    ensures Awaiting(fp, a0, w, log[..e], m)
    decreases e
  {
    if e == c {
      assert WireAll(log)[c..][..e - c] == [];
      assert m == masks;
    } else {
      var e' := e - 1;
      var m' := Fold(masks, WireAll(log)[c..][..e' - c]);
      NotFullStep(SfOf(w), FullMask(fp, SfOf(w)), masks, WireAll(log)[c..], e' - c);
      ScanKeeps(fp, a0, w, log, c, e', masks, m');
      FoldStep(log, c, e' - c, masks);
      PacketKeeps(fp, a0, w, log, e', m', m);
    }
  }

  lemma PacketKeeps(fp: Parms, a0: nat, w: nat, log: seq<Delivery>, i: nat, masks: seq<nat>, masks': seq<nat>)
    requires Valid(fp) && Legal(fp, a0, log) && i < |log|
    requires Awaiting(fp, a0, w, log[..i], masks) && masks[SfOf(w)] < FullMask(fp, SfOf(w))
    requires masks' == Apply(masks, Wire(log[i]))
    ensures Awaiting(fp, a0, w, log[..i + 1], masks')
  {
    FullIffComplete(fp, a0, w, log[..i], masks);
    ReceiveKeeps(fp, a0, w, log, i, masks);
  }

  lemma NotFullStep(sf: nat, full: nat, masks: seq<nat>, input: seq<Packet>, k: nat)
    requires sf < 10 && k < |input| && |masks| == 10 && NotFull(sf, full, masks, input, k + 1)
    ensures NotFull(sf, full, masks, input, k) && Fold(masks, input[..k])[sf] < full
  {
  }

  lemma FoldStep(log: seq<Delivery>, c: nat, j: nat, masks: seq<nat>)
    requires |masks| == 10 && c + j < |log|
    ensures Fold(masks, WireAll(log)[c..][..j + 1]) == Apply(Fold(masks, WireAll(log)[c..][..j]), Wire(log[c + j]))
  {
    var input := WireAll(log)[c..];
    assert input[..j + 1][..j] == input[..j];
    assert input[j] == Wire(log[c + j]);
  }

  /** The packet that completes the awaited subframe is one of its own. */
  lemma LastIsAwaited(fp: Parms, a0: nat, w: nat, log: seq<Delivery>, i: nat, masks: seq<nat>)
    requires Valid(fp) && i < |log|
    requires Awaiting(fp, a0, w, log[..i], masks) && !Complete(fp, log[..i], w)
    requires Complete(fp, log[..i + 1], w)
    ensures log[i].occ == w
  {
    assert log[..i + 1] == log[..i] + [log[i]];
    forall k | Sends(fp, SfOf(w), k) && Delivery(w, k) != log[i] ensures Delivery(w, k) in log[..i] {
      assert Delivery(w, k) in log[..i + 1];
    }
  }

  /** One call of the receiver while it tracks the sender: it returns exactly when the awaited
      subframe is complete, the window then moves on, and the last packet names the awaited frame. */
  lemma CallCorrect(fp: Parms, a0: nat, w: nat, log: seq<Delivery>, c: nat, masks: seq<nat>, done: bool, k: nat,
                    masks': seq<nat>)
    requires Valid(fp) && Legal(fp, a0, log) && c <= |log|
    requires Awaiting(fp, a0, w, log[..c], masks)
    requires Call(fp, SfOf(w), WireAll(log)[c..], masks, done, k, masks')
    ensures done <==> Complete(fp, log[..c + k], w)
    ensures done ==> Awaiting(fp, a0, w + 1, log[..c + k], masks')
    ensures done && k > 0 ==> WireAll(log)[c..][k - 1].frame == FrameOf(w)
    ensures !done ==> !Complete(fp, log, w)
  {
    var input := WireAll(log)[c..];
    var e, m := c + k, Fold(masks, input[..k]);
    ScanKeeps(fp, a0, w, log, c, e, masks, m);
    FullIffComplete(fp, a0, w, log[..e], m);
    if done {
      assert masks' == m[SfOf(w) := 0];
      ReturnKeeps(fp, a0, w, log[..e], m);
      if k > 0 {
        LastNamesFrame(fp, a0, w, log, c, masks, k);
      }
    } else {
      assert log[..c + k] == log;
    }
  }

  lemma LastNamesFrame(fp: Parms, a0: nat, w: nat, log: seq<Delivery>, c: nat, masks: seq<nat>, k: nat)
    requires Valid(fp) && Legal(fp, a0, log) && 0 < k && c + k <= |log|
    requires Awaiting(fp, a0, w, log[..c], masks) && Complete(fp, log[..c + k], w)
    requires NotFull(SfOf(w), FullMask(fp, SfOf(w)), masks, WireAll(log)[c..], k)
    ensures WireAll(log)[c..][k - 1].frame == FrameOf(w)
  {
    var input := WireAll(log)[c..];
    var i, m := c + (k - 1), Fold(masks, input[..k - 1]);
    NotFullStep(SfOf(w), FullMask(fp, SfOf(w)), masks, input, k - 1);
    ScanKeeps(fp, a0, w, log, c, i, masks, m);
    assert input[k - 1] == Wire(log[i]) && log[..i + 1] == log[..c + k];
    FillingIsAwaited(fp, a0, w, log, i, m);
  }

  lemma FillingIsAwaited(fp: Parms, a0: nat, w: nat, log: seq<Delivery>, i: nat, masks: seq<nat>)
    requires Valid(fp) && i < |log|
    requires Awaiting(fp, a0, w, log[..i], masks) && masks[SfOf(w)] < FullMask(fp, SfOf(w))
    requires Complete(fp, log[..i + 1], w)
    ensures log[i].occ == w
  {
    FullIffComplete(fp, a0, w, log[..i], masks);
    LastIsAwaited(fp, a0, w, log, i, masks);
  }

  // ---------------------------------------------------------------- the thread

  /** Nothing has arrived yet. */
  lemma StartAwaiting(fp: Parms, a0: nat, masks: seq<nat>)
    requires Valid(fp) && |masks| == 10 && forall s :: 0 <= s < 10 ==> masks[s] == 0
    ensures Awaiting(fp, a0, a0, [], masks)
  {
    ZeroIffEmpty(0);
    forall a | a0 <= a < a0 + 10 ensures Records(fp, [], a, masks[SfOf(a)]) {
      assert SymbolsOf([], a) == {};
    }
  }

  /** The n-th report is the sender's n-th subframe. */
  predicate InLockstep(reports: seq<(nat, nat)>, a0: nat) {
    forall i :: 0 <= i < |reports| ==> reports[i] == (FrameOf(a0 + i), SfOf(a0 + i))
  }

  /** The state of the thread after `n` returns and `c` consumed deliveries, with the loop counters on
      the last reported subframe. */
  ghost predicate Running(fp: Parms, a0: nat, log: seq<Delivery>, n: nat, c: nat, frame: nat, subframe: nat,
                          masks: seq<nat>)
    requires Valid(fp)
  {
    && c <= |log| && (n == 0 ==> c == 0)
    && Awaiting(fp, a0, a0 + n, log[..c], masks)
    && (n > 0 ==> frame == FrameOf(a0 + n - 1) && subframe == SfOf(a0 + n - 1))
  }

  /** The ghost half of an iteration that tracks the sender. */
  lemma IterationTracks(fp: Parms, a0: nat, log: seq<Delivery>, n: nat, c: nat, frame: nat, subframe: nat,
                        masks: seq<nat>, done: bool, k: nat, masks': seq<nat>)
    requires Valid(fp) && Legal(fp, a0, log) && SfOf(a0) == 0 && subframe < 10 && (n == 0 ==> subframe == 9)
    requires Running(fp, a0, log, n, c, frame, subframe, masks)
    requires Call(fp, NextSubframe(frame, subframe).1, WireAll(log)[c..], masks, done, k, masks')
    ensures NextSubframe(frame, subframe).1 == SfOf(a0 + n)
    ensures n > 0 ==> NextSubframe(frame, subframe).0 == FrameOf(a0 + n)
    ensures n == 0 && done ==> k > 0
    ensures done && k > 0 ==> WireAll(log)[c..][k - 1].frame == FrameOf(a0 + n)
    ensures done ==> Complete(fp, log[..c + k], a0 + n)
    ensures done ==> Running(fp, a0, log, n + 1, c + k, FrameOf(a0 + n), SfOf(a0 + n), masks')
    ensures !done ==> !Complete(fp, log, a0 + n)
  {
    if n > 0 { TickFollows(a0 + n - 1); }
    CallCorrect(fp, a0, a0 + n, log, c, masks, done, k, masks');
    assert Sends(fp, SfOf(a0 + n), if IsTickSubframe(fp, SfOf(a0 + n)) then Tick else Symbol(0));
  }

  /** One iteration of the `ru_thread` loop: counter update and fronthaul read.  The report carries
      the number of the awaited subframe on every input; when the thread is tracking the sender, it is
      the sender's next subframe and that subframe has completely arrived. */
  method Iterate(ru: SouthReceiver, fp: Parms, log: seq<Delivery>, c: nat, frame: nat, subframe: nat,
                 ghost a0: nat, ghost n: nat)
    returns (done: bool, c': nat, frame': nat, subframe': nat)
    requires Valid(fp) && Legal(fp, a0, log) && ru.Valid() && c <= |log| && subframe < 10
    requires n == 0 ==> ru.firstRx && subframe == 9
    requires n > 0 ==> !ru.firstRx && !ru.waitResynch
    modifies ru
    ensures ru.Valid() && c <= c' <= |log| && subframe' < 10
    ensures done ==> !ru.firstRx && ru.waitResynch == old(ru.waitResynch)
    ensures done ==> ru.ttiRx == subframe' == (subframe + 1) % 10
    ensures SfOf(a0) == 0 && old(Running(fp, a0, log, n, c, frame, subframe, ru.symbolMask)) ==>
      if done then
        && Running(fp, a0, log, n + 1, c', frame', subframe', ru.symbolMask)
        && Complete(fp, log[..c'], a0 + n)
        && ru.frameRx == frame'
      else
        !Complete(fp, log, a0 + n)
  {
    var input := WireAll(log);
    var (f, sf) := NextSubframe(frame, subframe);
    ghost var masks := ru.symbolMask;
    ghost var tracking := SfOf(a0) == 0 && Running(fp, a0, log, n, c, frame, subframe, masks);
    var k;
    done, k, frame', subframe' := ru.SouthIn(fp, f, sf, input[c..]);
    c' := c + k;
    if tracking { IterationTracks(fp, a0, log, n, c, frame, subframe, masks, done, k, ru.symbolMask); }
  }

  /** The `ru_thread` loop over the fronthaul receiver, for at most `calls` iterations.  It is in
      lockstep exactly when the sender's first subframe has number 0; it never reports a subframe that
      has not completely arrived, and it stops only for want of a packet of the awaited subframe. */
  method RuThread(fp: Parms, log: seq<Delivery>, calls: nat, ahead: nat, singleThread: bool, ghost a0: nat)
    returns (reports: seq<(nat, nat)>, consumedAt: seq<nat>)
    requires Valid(fp) && Legal(fp, a0, log)
    ensures |reports| <= calls && |consumedAt| == |reports|
    ensures reports != [] ==> (InLockstep(reports, a0) <==> SfOf(a0) == 0)
    ensures SfOf(a0) == 0 ==> forall i :: 0 <= i < |reports| ==>
      consumedAt[i] <= |log| && Complete(fp, log[..consumedAt[i]], a0 + i)
    ensures SfOf(a0) == 0 && |reports| < calls ==> !Complete(fp, log, a0 + |reports|)
  {
    var ru := new SouthReceiver(ahead, singleThread);
    var subframe: nat, frame: nat, c: nat := 9, 1023, 0;
    reports, consumedAt := [], [];
    StartAwaiting(fp, a0, ru.symbolMask);
    assert log[..0] == [];
    while |reports| < calls
      invariant ru.Valid() && c <= |log| && subframe < 10 && fresh(ru)
      invariant |consumedAt| == |reports| <= calls && !ru.waitResynch
      invariant reports == [] ==> ru.firstRx && subframe == 9
      invariant reports != [] ==> !ru.firstRx && reports[0].1 == 0
      invariant SfOf(a0) == 0 ==> Running(fp, a0, log, |reports|, c, frame, subframe, ru.symbolMask)
      invariant SfOf(a0) == 0 ==> InLockstep(reports, a0)
      invariant SfOf(a0) == 0 ==> forall i :: 0 <= i < |reports| ==>
        consumedAt[i] <= |log| && Complete(fp, log[..consumedAt[i]], a0 + i)
      decreases calls - |reports|
    {
      var done;
      done, c, frame, subframe := Iterate(ru, fp, log, c, frame, subframe, a0, |reports|);
      if !done { return; }
      reports, consumedAt := reports + [(ru.frameRx, ru.ttiRx)], consumedAt + [c];
    }
  }

  // ---------------------------------------------------------------- the assumptions on the channel

  /** The packets of subframe `a`, in the order the sender emits them. */
  function Emitted(fp: Parms, a: nat): (e: seq<Delivery>)
    requires Valid(fp)
    ensures forall d :: d in e <==> d.occ == a && Sends(fp, SfOf(a), d.kind)
    ensures forall i, j :: 0 <= i < j < |e| ==> e[i] != e[j]
  {
    if IsTickSubframe(fp, SfOf(a)) then [Delivery(a, Tick)]
    else
      var e := seq(fp.symbolsPerTti, i requires 0 <= i < fp.symbolsPerTti => Delivery(a, Symbol(i)));
      assert forall d: Delivery :: d.occ == a && Sends(fp, SfOf(a), d.kind) ==> e[d.kind.number] == d;
      e
  }

  /** The deliveries `p` are the subframes from `a0` to below `b`, and all of them. */
  ghost predicate Exactly(fp: Parms, a0: nat, b: nat, p: seq<Delivery>)
    requires Valid(fp)
  {
    forall d :: d in p <==> a0 <= d.occ < b && Sends(fp, SfOf(d.occ), d.kind)
  }

  lemma PrefixComplete(fp: Parms, a0: nat, b: nat, p: seq<Delivery>, q: seq<Delivery>, a: nat)
    requires Valid(fp) && Exactly(fp, a0, b, p) && p <= q && a0 <= a < b
    ensures Complete(fp, q, a)
  {
    forall k | Sends(fp, SfOf(a), k) ensures Delivery(a, k) in q {
      assert Delivery(a, k) in p;
    }
  }

  /** Appending the first `k` packets of the next subframe keeps a delivery order legal. */
  lemma {:induction false} AppendIsLegal(fp: Parms, a0: nat, b: nat, p: seq<Delivery>, k: nat)
    requires Valid(fp) && a0 <= b && Legal(fp, a0, p) && Exactly(fp, a0, b, p) && k <= |Emitted(fp, b)|
    ensures Legal(fp, a0, p + Emitted(fp, b)[..k])
    decreases k
  {
    var e := Emitted(fp, b);
    var q := p + e[..k];
    if k == 0 {
      assert q == p;
    } else {
      var init, d := p + e[..k - 1], e[k - 1];
      AppendIsLegal(fp, a0, b, p, k - 1);
      assert q[..|q| - 1] == init && q[|q| - 1] == d;
      assert d in e && d !in p;
      forall a | a0 <= a <= d.occ - 10 ensures Complete(fp, init, a) { PrefixComplete(fp, a0, b, p, init, a); }
    }
  }

  /** No subframe is overtaken. */
  ghost predicate InOrder(p: seq<Delivery>) {
    forall i, j :: 0 <= i < j < |p| ==> p[i].occ <= p[j].occ
  }

  lemma AppendInOrder(fp: Parms, a0: nat, b: nat, p: seq<Delivery>)
    requires Valid(fp) && Exactly(fp, a0, b, p) && InOrder(p)
    ensures InOrder(p + Emitted(fp, b))
  {
    var e := Emitted(fp, b);
    var q := p + e;
    forall i, j | 0 <= i < j < |q| ensures q[i].occ <= q[j].occ {
      if |p| <= j { assert q[j] in e && (if i < |p| then q[i] in p else q[i] in e); }
    }
  }

  /** A channel that keeps the order is legal and delivers everything, for any number of subframes. */
  lemma {:induction false} InOrderIsLegal(fp: Parms, a0: nat, n: nat) returns (p: seq<Delivery>)
    requires Valid(fp)
    ensures Legal(fp, a0, p) && Exactly(fp, a0, a0 + n, p)
    ensures InOrder(p)
    decreases n
  {
    if n == 0 {
      p := [];
    } else {
      var q := InOrderIsLegal(fp, a0, n - 1);
      p := AppendSubframe(fp, a0, a0 + (n - 1), q);
    }
  }

  lemma AppendSubframe(fp: Parms, a0: nat, b: nat, q: seq<Delivery>) returns (p: seq<Delivery>)
    requires Valid(fp) && a0 <= b && Legal(fp, a0, q) && Exactly(fp, a0, b, q) && InOrder(q)
    ensures Legal(fp, a0, p) && Exactly(fp, a0, b + 1, p) && InOrder(p)
  {
    p := q + Emitted(fp, b);
    AppendIsLegal(fp, a0, b, q, |Emitted(fp, b)|);
    assert Emitted(fp, b)[..|Emitted(fp, b)|] == Emitted(fp, b);
    AppendInOrder(fp, a0, b, q);
  }

  /** The window is needed: one tick that arrives ten subframes early makes the receiver return at
      once, with the wrong frame and with nothing of the awaited subframe received. */
  lemma EarlyTickBreaks(fp: Parms, a0: nat, masks: seq<nat>)
    requires Valid(fp) && SfOf(a0) == 0 && IsTickSubframe(fp, 0)
    requires |masks| == 10 && forall s :: 0 <= s < 10 ==> masks[s] == 0
    ensures var log := [Delivery(a0 + 10, Tick)];
      && Call(fp, 0, WireAll(log), masks, true, 1, masks)
      && WireAll(log)[0].frame != FrameOf(a0)
      && !Complete(fp, log, a0)
  {
    var log := [Delivery(a0 + 10, Tick)];
    var w := WireAll(log);
    assert w[..0] == [] && w[..1] == w;
    assert Fold(masks, w[..0]) == masks;
    assert Fold(masks, w) == Apply(Fold(masks, w[..0]), w[0]);
    TickMaskIsFull(fp.ulSymbolsInS);
    TickMaskIsFull(fp.symbolsPerTti);
    assert Apply(masks, w[0])[0 := 0] == masks;
    assert Sends(fp, SfOf(a0), Tick);
    assert (a0 + 10) / 10 == a0 / 10 + 1;
  }
}
