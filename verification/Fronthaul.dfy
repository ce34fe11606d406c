/** IF4p5 fronthaul: the remote unit's uplink sender, a reordering channel, and the synchronous
    receiver that keeps one symbol mask per subframe number. */
module Fronthaul {
  import opened BitMasks
  import opened FrameParms
  import opened SymbolLoops
  import opened Timing

  const TICK_MASK: nat := 0xffff

  // ---------------------------------------------------------------- sender

  /** In TDD a subframe that is not uplink is announced by a tick instead of its symbols. */
  predicate IsTickSubframe(fp: Parms, sf: nat)
    requires Valid(fp) && sf < 10
  {
    fp.duplex == TDD && SubframeSelect(fp, sf) != UL
  }

  /** The packet kinds that make up subframe number `sf`. */
  predicate Sends(fp: Parms, sf: nat, k: Kind)
    requires Valid(fp) && sf < 10
  {
    if IsTickSubframe(fp, sf) then k == Tick else k.Symbol? && k.number < fp.symbolsPerTti
  }

  /** `fh_if4p5_north_out`: emits each packet of the subframe once. */
  method NorthOut(fp: Parms, frameRx: nat, ttiRx: nat) returns (sent: seq<Packet>)
    requires Valid(fp) && ttiRx < 10
    ensures forall x :: x in sent <==> x.frame == frameRx && x.sf == ttiRx && Sends(fp, ttiRx, x.kind)
    ensures forall i, j :: 0 <= i < j < |sent| ==> sent[i] != sent[j]
    ensures if fp.duplex == TDD && fp.pattern[ttiRx] != UL then sent == [Packet(frameRx, ttiRx, Tick)]
      else |sent| == fp.symbolsPerTti && forall i :: 0 <= i < |sent| ==> sent[i] == Packet(frameRx, ttiRx, Symbol(i))
  {
    if fp.duplex == TDD && SubframeSelect(fp, ttiRx) != UL {
      return [Packet(frameRx, ttiRx, Tick)];
    }
    sent := [];
    for symbol := 0 to fp.symbolsPerTti
      invariant |sent| == symbol
      invariant forall i :: 0 <= i < symbol ==> sent[i] == Packet(frameRx, ttiRx, Symbol(i))
    {
      sent := sent + [Packet(frameRx, ttiRx, Symbol(symbol))];
    }
    forall x: Packet | x.frame == frameRx && x.sf == ttiRx && Sends(fp, ttiRx, x.kind) ensures x in sent {
      assert sent[x.kind.number] == x;
    }
  }

  // ---------------------------------------------------------------- channel

  /** A packet on its way, labelled with the absolute subframe number it was sent for. */
  datatype Delivery = Delivery(occ: nat, kind: Kind)

  /** What the receiver sees of a delivery. */
  function Wire(d: Delivery): Packet {
    Packet(FrameOf(d.occ), SfOf(d.occ), d.kind)
  }

  function WireAll(log: seq<Delivery>): (w: seq<Packet>)
    ensures |w| == |log| && forall i :: 0 <= i < |w| ==> w[i] == Wire(log[i])
  {
    seq(|log|, i requires 0 <= i < |log| => Wire(log[i]))
  }

  /** Symbols and ticks; PRACH and other packets leave the masks alone. */
  predicate IsData(k: Kind) {
    k.Symbol? || k.Tick?
  }

  /** Every packet of subframe `a` has been delivered. */
  ghost predicate Complete(fp: Parms, log: seq<Delivery>, a: nat)
    requires Valid(fp)
  {
    forall k :: Sends(fp, SfOf(a), k) ==> Delivery(a, k) in log
  }

  /** Delivery `d` may follow the deliveries `p` of a sender whose first subframe is `a0`: it was sent, it
      has not arrived before, and all packets of the subframes at least ten earlier have. */
  ghost predicate Arrives(fp: Parms, a0: nat, p: seq<Delivery>, d: Delivery)
    requires Valid(fp)
  {
    IsData(d.kind) ==>
      && a0 <= d.occ && Sends(fp, SfOf(d.occ), d.kind)
      && d !in p
      && forall a :: a0 <= a <= d.occ - 10 ==> Complete(fp, p, a)
  }

  /** A delivery order in which every delivery may arrive when it does. */
  ghost predicate Legal(fp: Parms, a0: nat, log: seq<Delivery>)
    requires Valid(fp)
  {
    log == [] || (Legal(fp, a0, log[..|log| - 1]) && Arrives(fp, a0, log[..|log| - 1], log[|log| - 1]))
  }

  lemma {:induction false} LegalAt(fp: Parms, a0: nat, log: seq<Delivery>, i: nat)
    requires Valid(fp) && Legal(fp, a0, log) && i < |log|
    ensures Arrives(fp, a0, log[..i], log[i])
    decreases |log|
  {
    var init := log[..|log| - 1];
    if i < |init| {
      LegalAt(fp, a0, init, i);
      assert init[..i] == log[..i];
    }
  }

  // ---------------------------------------------------------------- receiver

  /** The effect of one packet on the ten masks. */
  function Apply(masks: seq<nat>, x: Packet): (r: seq<nat>)
    requires |masks| == 10
    ensures |r| == 10 && forall s :: 0 <= s < 10 && s != x.sf ==> r[s] == masks[s]
  {
    match x.kind
    case Symbol(n) => masks[x.sf := Or(masks[x.sf], Pow2(n))]
    case Tick => masks[x.sf := TICK_MASK]
    case _ => masks
  }

  /** The effect of a packet sequence. */
  function Fold(masks: seq<nat>, p: seq<Packet>): (r: seq<nat>)
    requires |masks| == 10
    ensures |r| == 10
  {
    if p == [] then masks else Apply(Fold(masks, p[..|p| - 1]), p[|p| - 1])
  }

  /** The packets of subframe number `sf`. */
  function Of(p: seq<Packet>, sf: nat): seq<Packet> {
    if p == [] then []
    else Of(p[..|p| - 1], sf) + (if p[|p| - 1].sf == sf then [p[|p| - 1]] else [])
  }

  /** However the packets of the ten subframes interleave, a subframe's mask stands for the symbols of its
      own packets. */
  lemma {:induction false} FoldIsSeen(masks: seq<nat>, p: seq<Packet>, sf: nat)
    requires |masks| == 10 && sf < 10 && masks[sf] == 0
    requires forall x :: x in p && x.sf == sf ==> !x.kind.Tick?
    ensures Bits(Fold(masks, p)[sf]) == Seen(Of(p, sf))
  {
    if p == [] {
      ZeroIffEmpty(0);
    } else {
      var init, x := p[..|p| - 1], p[|p| - 1];
      assert x in p;
      FoldIsSeen(masks, init, sf);
      SeenSnoc(Of(init, sf), x);
      if x.kind.Symbol? { SetAndClear(Fold(masks, init)[sf], x.kind.number); }
    }
  }

  /** The guard of the receive loop, on the packets received so far. */
  lemma GuardMeansMissing(masks: seq<nat>, p: seq<Packet>, sf: nat, n: nat)
    requires |masks| == 10 && sf < 10 && masks[sf] == 0
    requires forall x :: x in p && x.sf == sf ==> !x.kind.Tick?
    ensures Fold(masks, p)[sf] < Full(n) <==> !NotBelowFull(Of(p, sf), n)
  {
    FoldIsSeen(masks, p, sf);
    BelowFullIff(Fold(masks, p)[sf], n);
  }

  /** The mask value at which subframe `sf` counts as received. */
  function FullMask(fp: Parms, sf: nat): nat
    requires Valid(fp) && sf < 10
  {
    if fp.duplex == TDD && SubframeSelect(fp, sf) == S then Full(fp.ulSymbolsInS) else Full(fp.symbolsPerTti)
  }

  /** It stands for the uplink symbols of a special subframe in TDD, and for all symbols otherwise. */
  lemma FullMaskStandsFor(fp: Parms, sf: nat)
    requires Valid(fp) && sf < 10
    ensures Bits(FullMask(fp, sf)) ==
      Range(if fp.duplex == TDD && fp.pattern[sf] == S then fp.ulSymbolsInS else fp.symbolsPerTti)
  {
    FullIffRange(Full(fp.ulSymbolsInS), fp.ulSymbolsInS);
    FullIffRange(Full(fp.symbolsPerTti), fp.symbolsPerTti);
  }

  /** None of the first `k` prefixes of the input fills the mask of subframe `sf`. */
  ghost predicate NotFull(sf: nat, full: nat, masks: seq<nat>, input: seq<Packet>, k: nat)
    requires sf < 10 && k <= |input| && |masks| == 10
    decreases k
  {
    k == 0 || (NotFull(sf, full, masks, input, k - 1) && Fold(masks, input[..k - 1])[sf] < full)
  }

  /** What one receive call does to the masks: it consumes nothing if the awaited mask is already full,
      otherwise it stops at the first of the `k` packets that fills it (or is left waiting at the end
      of the input); then only the awaited mask is reset and all other bits are kept. */
  ghost predicate Call(fp: Parms, sf: nat, input: seq<Packet>, masks: seq<nat>, done: bool, k: nat, masks': seq<nat>)
    requires Valid(fp) && sf < 10 && |masks| == 10
  {
    && k <= |input|
    && NotFull(sf, FullMask(fp, sf), masks, input, k)
    && (done ==> Fold(masks, input[..k])[sf] >= FullMask(fp, sf) && masks' == Fold(masks, input[..k])[sf := 0])
    && (!done ==> k == |input| && Fold(masks, input[..k])[sf] < FullMask(fp, sf))
  }

  class SouthReceiver {
    /** The transmit lead, and whether this thread sets the transmit timing. */
    const sfAhead: nat
    const singleThread: bool
    var symbolMask: seq<nat>
    var firstRx: bool
    var waitResynch: bool
    var frameRx: nat
    var ttiRx: nat
    var timestampRx: nat
    var frameTx: nat
    var ttiTx: nat

    ghost predicate Valid()
      reads this
    {
      |symbolMask| == 10
    }

    /** The state `init_RU_proc` leaves. */
    constructor(sfAhead: nat, singleThread: bool)
      ensures this.sfAhead == sfAhead && this.singleThread == singleThread
      ensures Valid() && firstRx && !waitResynch && forall s :: 0 <= s < 10 ==> symbolMask[s] == 0
    {
      symbolMask := seq(10, _ => 0);
      firstRx, waitResynch, frameRx, ttiRx, timestampRx, frameTx, ttiTx := true, false, 0, 0, 0, 0, 0;
      this.sfAhead, this.singleThread := sfAhead, singleThread;
    }

    /** The receive loop of `fh_if4p5_south_in`; `f` and `sf` are those of the last packet. */
    method ReceiveUntilFull(subframe: nat, full: nat, input: seq<Packet>)
      returns (done: bool, consumed: nat, f: nat, sf: nat)
      requires Valid() && subframe < 10 && symbolMask[subframe] < full
      modifies this`symbolMask
      ensures Valid() && consumed <= |input|
      ensures NotFull(subframe, full, old(symbolMask), input, consumed)
      ensures symbolMask == Fold(old(symbolMask), input[..consumed])
      ensures done ==> symbolMask[subframe] >= full && sf == subframe && consumed > 0 && f == input[consumed - 1].frame
      ensures !done ==> symbolMask[subframe] < full && consumed == |input|
    {
      consumed, f, sf := 0, 0, 0;
      assert input[..0] == [];
      while consumed < |input| && symbolMask[subframe] < full
        invariant consumed <= |input| && Valid()
        invariant symbolMask == Fold(old(symbolMask), input[..consumed])
        invariant NotFull(subframe, full, old(symbolMask), input, consumed)
        invariant consumed > 0 ==> f == input[consumed - 1].frame && sf == input[consumed - 1].sf
        invariant symbolMask[subframe] >= full ==> consumed > 0 && sf == subframe
      {
        var x := input[consumed];
        assert input[..consumed + 1][..consumed] == input[..consumed];
        symbolMask := Apply(symbolMask, x);
        f, sf := x.frame, x.sf;
        consumed := consumed + 1;
      }
      done := symbolMask[subframe] >= full;
    }

    /** The part of the call after the receive loop: reception and transmit timing, and the thread's counters. */
    method Conclude(fp: Parms, frame: nat, subframe: nat, f: nat, sf: nat) returns (frame': nat, subframe': nat)
      modifies this`frameRx, this`ttiRx, this`timestampRx, this`frameTx, this`ttiTx, this`firstRx, this`waitResynch
      ensures ttiRx == sf && frameRx == f && !firstRx
      ensures timestampRx == (f * 10 + sf) * fp.samplesPerTti
      ensures if singleThread then (frameTx, ttiTx) == TxOf(f, sf, sfAhead)
        else frameTx == old(frameTx) && ttiTx == old(ttiTx)
      ensures subframe' == sf
      ensures frame' == if old(firstRx) || (old(waitResynch) && f != frame) then f else frame
      ensures waitResynch == (old(waitResynch) && (old(firstRx) || f == frame))
    {
      frame', subframe' := frame, subframe;
      ttiRx, frameRx := sf, f;
      timestampRx := (frameRx * 10 + ttiRx) * fp.samplesPerTti;
      if singleThread {
        ttiTx := (sf + sfAhead) % 10;
        frameTx := if sf > 9 - sfAhead then And1023(f + 1) else f;
      }
      if !firstRx {
        if ttiRx != subframe { subframe' := sf; }
        if waitResynch && frameRx != frame {
          waitResynch := false;
          frame' := frameRx;
        }
      } else {
        firstRx := false;
        frame', subframe' := frameRx, ttiRx;
      }
    }

    /** `fh_if4p5_south_in`.  `done` is false when the input runs out while the call is still
        waiting.  The packet that fills the awaited mask belongs to the awaited subframe. */
    method SouthIn(fp: Parms, frame: nat, subframe: nat, input: seq<Packet>)
      returns (done: bool, consumed: nat, frame': nat, subframe': nat)
      requires Valid() && FrameParms.Valid(fp) && subframe < 10
      modifies this
      ensures Valid()
      ensures Call(fp, subframe, input, old(symbolMask), done, consumed, symbolMask)
      ensures subframe' == subframe
      ensures done ==> ttiRx == subframe && !firstRx
      ensures done ==> frameRx == if consumed == 0 then frame else input[consumed - 1].frame
      ensures done ==> frame' == if old(firstRx) || old(waitResynch) then frameRx else frame
      ensures done ==> waitResynch == (old(waitResynch) && (old(firstRx) || frameRx == frame))
      ensures done ==> timestampRx == (frameRx * 10 + ttiRx) * fp.samplesPerTti
      ensures done && singleThread ==> (frameTx, ttiTx) == TxOf(frameRx, ttiRx, sfAhead)
      ensures !(done && singleThread) ==> frameTx == old(frameTx) && ttiTx == old(ttiTx)
    {
      var full := FullMask(fp, subframe);
      var f, sf;
      frame', subframe' := frame, subframe;
      if symbolMask[subframe] < full {
        done, consumed, f, sf := ReceiveUntilFull(subframe, full, input);
        if !done { return; }
      } else {
        assert input[..0] == [];
        done, consumed, f, sf := true, 0, frame, subframe;
      }
      frame', subframe' := Conclude(fp, frame, subframe, f, sf);
      symbolMask := symbolMask[sf := 0];
    }
  }
}
