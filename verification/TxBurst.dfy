/** Burst control of the RF transmitter: the START/MIDDLE/END flags of TDD bursts and the fail-safe
    that cuts the burst after a late command and restarts it. */
module TxBurst {
  import opened FrameParms
  import opened Options

  datatype Late = Normal | Terminate | Stop1 | Stop2 | Restart

  datatype Flag = BurstStart | BurstMiddle | BurstEnd | BurstEndNoTimeSpec

  // ---------------------------------------------------------------- one call

  /** The flag of a DL or S subframe in a burst without faults. */
  function BaseFlag(duplex: Duplex, sf: SfType, prev: SfType): Flag
    requires sf != UL
  {
    if sf == S then BurstEnd
    else if duplex == TDD && prev == UL then BurstStart
    else BurstMiddle
  }

  /** The fail-safe: the next control state and the flag written, if anything is written. */
  function Respond(late: Late, base: Flag): (Late, Option<Flag>) {
    match late
    case Normal => (Normal, Some(base))
    case Terminate => (Stop1, Some(BurstEndNoTimeSpec))
    case Stop1 => (Stop2, None)
    case Stop2 => (Restart, None)
    case Restart => (Normal, Some(BurstStart))
  }

  /** A short write in the normal state is a late command; with the write thread enabled it is not
      looked at. */
  function AfterWrite(late: Late, short: bool, writeThread: bool): Late {
    if !writeThread && short && late == Normal then Terminate else late
  }

  // ---------------------------------------------------------------- runs

  /** `Tx` is a `tx_rf` call for a DL or S subframe, with its fault-free flag and whether the device
      wrote short; `RxFault` is a short read in `rx_rf`, at any point of the run. */
  datatype Event = Tx(base: Flag, short: bool) | RxFault

  function Step(late: Late, e: Event, writeThread: bool): (Late, seq<Option<Flag>>) {
    match e
    case RxFault => (Terminate, [])
    case Tx(base, short) =>
      var (l, out) := Respond(late, base);
      (if out.Some? then AfterWrite(l, short, writeThread) else l, [out])
  }

  function StateAfter(run: seq<Event>, writeThread: bool): Late {
    if run == [] then Normal
    else Step(StateAfter(run[..|run| - 1], writeThread), run[|run| - 1], writeThread).0
  }

  /** What each `Tx` call of the run wrote. */
  function Outputs(run: seq<Event>, writeThread: bool): seq<Option<Flag>> {
    if run == [] then []
    else
      Outputs(run[..|run| - 1], writeThread)
      + Step(StateAfter(run[..|run| - 1], writeThread), run[|run| - 1], writeThread).1
  }

  /** Silent calls come only after a cut, at most two in a row, and end in a start or another cut. */
  predicate FailSafe(outs: seq<Option<Flag>>) {
    && (forall i :: 0 <= i < |outs| - 2 ==> outs[i].Some? || outs[i + 1].Some? || outs[i + 2].Some?)
    && (forall i :: 0 <= i < |outs| - 1 && outs[i].None? && outs[i + 1].Some? ==>
          outs[i + 1].value == BurstStart || outs[i + 1].value == BurstEndNoTimeSpec)
    && (forall i :: 0 < i < |outs| && outs[i].None? ==>
          outs[i - 1].None? || outs[i - 1].value == BurstEndNoTimeSpec)
    && (outs != [] ==> outs[0].Some?)
  }

  /** How the control state remembers the last calls. */
  predicate Remembers(late: Late, outs: seq<Option<Flag>>) {
    var n := |outs|;
    && (late == Stop1 ==> n >= 1 && outs[n - 1] == Some(BurstEndNoTimeSpec))
    && (late == Stop2 ==> n >= 2 && outs[n - 1].None? && outs[n - 2] == Some(BurstEndNoTimeSpec))
    && (late == Restart ==> n >= 3 && outs[n - 1].None? && outs[n - 2].None? && outs[n - 3] == Some(BurstEndNoTimeSpec))
    && (late == Normal ==> n == 0 || outs[n - 1].Some?)
  }

  lemma StepKeeps(late: Late, outs: seq<Option<Flag>>, e: Event, writeThread: bool)
    requires FailSafe(outs) && Remembers(late, outs)
    ensures FailSafe(outs + Step(late, e, writeThread).1)
    ensures Remembers(Step(late, e, writeThread).0, outs + Step(late, e, writeThread).1)
  {
  }

  /** The fail-safe over every run, with read faults and short writes at arbitrary points. */
  lemma {:induction false} FailSafeHolds(run: seq<Event>, writeThread: bool)
    ensures FailSafe(Outputs(run, writeThread))
    ensures Remembers(StateAfter(run, writeThread), Outputs(run, writeThread))
  {
    if run != [] {
      FailSafeHolds(run[..|run| - 1], writeThread);
      var init := run[..|run| - 1];
      StepKeeps(StateAfter(init, writeThread), Outputs(init, writeThread), run[|run| - 1], writeThread);
    }
  }

  /** Fault-free calls still needed to be back in the normal state. */
  function CallsToNormal(late: Late): nat {
    match late
    case Normal => 0
    case Terminate => 4
    case Stop1 => 3
    case Stop2 => 2
    case Restart => 1
  }

  predicate FaultFree(run: seq<Event>) {
    forall e :: e in run ==> e.Tx? && !e.short
  }

  /** Whatever happened before, a fault-free stretch is back in the normal state after the calls still
      needed, at most four. */
  lemma {:induction false} Recovers(before: seq<Event>, after: seq<Event>, writeThread: bool)
    requires FaultFree(after)
    ensures var needed := CallsToNormal(StateAfter(before, writeThread));
      && needed <= 4
      && (StateAfter(before + after, writeThread) == Normal <==> |after| >= needed)
      && CallsToNormal(StateAfter(before + after, writeThread)) == (if |after| <= needed then needed - |after| else 0)
    decreases |after|
  {
    if after == [] {
      assert before + after == before;
    } else {
      var n := |after| - 1;
      Recovers(before, after[..n], writeThread);
      assert (before + after)[..|before + after| - 1] == before + after[..n];
      assert after[n] in after;
    }
  }

  /** What a fault-free call writes when `left` calls are needed to be back in the normal state. */
  function Written(left: int, base: Flag): Option<Flag> {
    if left <= 0 then Some(base)
    else if left == 1 then Some(BurstStart)
    else if left <= 3 then None
    else Some(BurstEndNoTimeSpec)
  }

  /** What the calls of a fault-free stretch write, `left` calls away from the normal state. */
  function AllWritten(left: nat, calls: seq<Event>): seq<Option<Flag>>
    requires FaultFree(calls)
  {
    if calls == [] then []
    else
      var n := |calls| - 1;
      assert calls[n] in calls;
      AllWritten(left, calls[..n]) + [Written(left - n, calls[n].base)]
  }

  lemma OneWrites(late: Late, e: Event, writeThread: bool)
    requires e.Tx?
    ensures Step(late, e, writeThread).1 == [Written(CallsToNormal(late), e.base)]
  {
  }

  /** One more call, `left` calls away from the normal state. */
  lemma WritesOne(init: seq<Event>, e: Event, left: int, outs: seq<Option<Flag>>, more: seq<Option<Flag>>,
                  writeThread: bool)
    requires e.Tx? && Outputs(init, writeThread) == outs + more
    requires CallsToNormal(StateAfter(init, writeThread)) == if left >= 0 then left else 0
    ensures Outputs(init + [e], writeThread) == outs + (more + [Written(left, e.base)])
  {
    OneWrites(StateAfter(init, writeThread), e, writeThread);
    Snoc(init, e, writeThread);
    assert outs + more + [Written(left, e.base)] == outs + (more + [Written(left, e.base)]);
  }

  /** Every fault-free stretch after every run: the burst is cut, two calls are silent, the next restarts
      it, and from there on each call writes its own flag. */
  lemma {:induction false} FaultFreeWrites(before: seq<Event>, after: seq<Event>, writeThread: bool)
    requires FaultFree(after)
    ensures Outputs(before + after, writeThread)
         == Outputs(before, writeThread) + AllWritten(CallsToNormal(StateAfter(before, writeThread)), after)
    decreases |after|
  {
    if after == [] {
      assert before + after == before;
    } else {
      var n := |after| - 1;
      var init, e := before + after[..n], after[n];
      assert e in after;
      var left := CallsToNormal(StateAfter(before, writeThread));
      FaultFreeWrites(before, after[..n], writeThread);
      Recovers(before, after[..n], writeThread);
      assert before + after == init + [e];
      WritesOne(init, e, left - n, Outputs(before, writeThread), AllWritten(left, after[..n]), writeThread);
    }
  }

  // ---------------------------------------------------------------- short writes

  /** A short write is a late command exactly without the write thread, in a call that writes its own flag or the
      restart; then the next call cuts the burst, whatever it was to write. */
  lemma ShortWriteCuts(run: seq<Event>, b: Flag, c: Flag, short: bool)
    ensures var late := StateAfter(run, false);
      late == Normal || late == Restart ==>
        && Outputs(run + [Tx(b, true)] + [Tx(c, short)], false) ==
             Outputs(run, false) + [Some(if late == Normal then b else BurstStart), Some(BurstEndNoTimeSpec)]
        && StateAfter(run + [Tx(b, true)] + [Tx(c, short)], false) == Stop1
  {
    Snoc(run, Tx(b, true), false);
    Snoc(run + [Tx(b, true)], Tx(c, short), false);
  }

  /** The run without the short writes. */
  function Unshortened(run: seq<Event>): (r: seq<Event>)
    ensures |r| == |run|
    ensures forall i :: 0 <= i < |r| ==> r[i] == if run[i].Tx? then Tx(run[i].base, false) else RxFault
  {
    seq(|run|, i requires 0 <= i < |run| => if run[i].Tx? then Tx(run[i].base, false) else RxFault)
  }

  /** With the write thread short writes have no effect, in any run. */
  lemma {:induction false} ShortWritesIgnored(run: seq<Event>)
    ensures StateAfter(run, true) == StateAfter(Unshortened(run), true)
    ensures Outputs(run, true) == Outputs(Unshortened(run), true)
    decreases |run|
  {
    if run != [] {
      var n := |run| - 1;
      ShortWritesIgnored(run[..n]);
      assert Unshortened(run)[..n] == Unshortened(run[..n]);
    }
  }

  /** Without it, neither have they in the call that cuts the burst nor in a silent one. */
  lemma ShortWriteInCut(run: seq<Event>, b: Flag)
    requires StateAfter(run, false) in {Terminate, Stop1, Stop2}
    ensures StateAfter(run + [Tx(b, true)], false) == StateAfter(run + [Tx(b, false)], false)
    ensures Outputs(run + [Tx(b, true)], false) == Outputs(run + [Tx(b, false)], false)
  {
    Snoc(run, Tx(b, true), false);
    Snoc(run, Tx(b, false), false);
  }

  // ---------------------------------------------------------------- TDD bursts

  /** Subframe `i` of a cyclic pattern against its neighbours: a special subframe closes a downlink
      stretch and opens an uplink one, and uplink follows special or uplink. */
  predicate Fits(p: seq<SfType>, i: nat)
    requires |p| == 10 && i < 10
  {
    var prev, next := p[if i == 0 then 9 else i - 1], p[if i == 9 then 0 else i + 1];
    && (p[i] == S ==> prev == DL && next == UL)
    && (p[i] == UL ==> prev != DL)
  }

  predicate BurstShaped(p: seq<SfType>) {
    |p| == 10 && forall i: nat :: i < 10 ==> Fits(p, i)
  }

  /** Every configuration of the table has this shape, so all that `subframe_select` supports. */
  lemma TableIsBurstShaped(config: nat)
    requires config <= 6
    ensures BurstShaped(TablePattern(config))
    ensures SupportedTdd(config) ==> BurstShaped(TddPattern(config))
  {
    if SupportedTdd(config) { SupportedMatchTable(config); }
  }

  /** The type of the subframe before subframe number `i`. */
  function Before(p: seq<SfType>, i: nat): SfType
    requires |p| == 10 && i < 10
  {
    p[(i + 9) % 10]
  }

  /** The flag written for absolute subframe `a`. */
  function FlagAt(p: seq<SfType>, a: nat): Option<Flag>
    requires |p| == 10
  {
    if p[SfOf(a)] == UL then None else Some(BaseFlag(TDD, p[SfOf(a)], Before(p, SfOf(a))))
  }

  /** A START or END flag. */
  function Mark(f: Option<Flag>): seq<Flag> {
    if f == Some(BurstStart) || f == Some(BurstEnd) then [f.value] else []
  }

  /** The START and END flags of `n` consecutive subframes from `a0`. */
  function Marks(p: seq<SfType>, a0: nat, n: nat): seq<Flag>
    requires |p| == 10
  {
    if n == 0 then [] else Marks(p, a0, n - 1) + Mark(FlagAt(p, a0 + n - 1))
  }

  predicate Alternates(marks: seq<Flag>) {
    forall i :: 0 <= i < |marks| - 1 ==> marks[i] != marks[i + 1]
  }

  /** Whether a burst is open when subframe `a` starts. */
  predicate Open(p: seq<SfType>, a: nat)
    requires |p| == 10
  {
    Before(p, SfOf(a)) == DL
  }

  /** Each subframe against the open burst: START opens a closed one, MIDDLE and END happen only inside
      one, uplink only outside. */
  lemma BurstStep(p: seq<SfType>, a: nat)
    requires BurstShaped(p)
    ensures FlagAt(p, a) == Some(BurstStart) <==> !Open(p, a) && Open(p, a + 1)
    ensures FlagAt(p, a) == Some(BurstMiddle) <==> Open(p, a) && Open(p, a + 1)
    ensures FlagAt(p, a) == Some(BurstEnd) <==> Open(p, a) && !Open(p, a + 1)
    ensures FlagAt(p, a) == None <==> !Open(p, a) && !Open(p, a + 1)
  {
    var i := SfOf(a);
    var j := if i == 0 then 9 else i - 1;
    assert (i + 9) % 10 == j;
    assert SfOf(a + 1) == if i == 9 then 0 else i + 1;
    assert Before(p, SfOf(a + 1)) == p[i];
    assert Fits(p, i) && Fits(p, j);
  }

  /** The flags between subframes `a0` and `b` alternate; the first one says whether a burst was open at `a0`
      and the last one whether one is open at `b`. */
  predicate Bracketed(p: seq<SfType>, a0: nat, b: nat, marks: seq<Flag>)
    requires |p| == 10
  {
    && Alternates(marks)
    && (forall i :: 0 <= i < |marks| ==> marks[i] == BurstStart || marks[i] == BurstEnd)
    && (if marks == [] then Open(p, a0) <==> Open(p, b)
        else (marks[0] == BurstEnd <==> Open(p, a0)) && (marks[|marks| - 1] == BurstStart <==> Open(p, b)))
  }

  lemma BracketStep(p: seq<SfType>, a0: nat, b: nat, marks: seq<Flag>)
    requires BurstShaped(p) && Bracketed(p, a0, b, marks)
    ensures Bracketed(p, a0, b + 1, marks + Mark(FlagAt(p, b)))
  {
    BurstStep(p, b);
    var marks' := marks + Mark(FlagAt(p, b));
    assert forall i :: 0 <= i < |marks| ==> marks'[i] == marks[i];
  }

  /** Bracketing: the START and END flags of the pattern alternate strictly, for any number of subframes and
      any starting point. */
  lemma {:induction false} BurstsBracketed(p: seq<SfType>, a0: nat, n: nat)
    requires BurstShaped(p)
    ensures Bracketed(p, a0, a0 + n, Marks(p, a0, n))
    decreases n
  {
    if n > 0 {
      BurstsBracketed(p, a0, n - 1);
      BracketStep(p, a0, a0 + (n - 1), Marks(p, a0, n - 1));
    }
  }

  lemma OpenAfter(p: seq<SfType>, a: nat)
    requires |p| == 10
    ensures Open(p, a + 1) <==> p[SfOf(a)] == DL
  {
    assert (SfOf(a + 1) + 9) % 10 == SfOf(a);
  }

  /** The flags after a restart in subframe `a`, where a START stands in place of the subframe's own. */
  predicate RestartAlternates(p: seq<SfType>, a: nat, n: nat)
    requires |p| == 10
  {
    Alternates([BurstStart] + Marks(p, a + 1, n))
  }

  lemma DownlinkRestart(p: seq<SfType>, a: nat, n: nat)
    requires BurstShaped(p) && p[SfOf(a)] == DL
    ensures RestartAlternates(p, a, n)
  {
    OpenAfter(p, a);
    BurstsBracketed(p, a + 1, n);
  }

  lemma SpecialRestart(p: seq<SfType>, a: nat) returns (n: nat)
    requires BurstShaped(p) && p[SfOf(a)] == S
    ensures !RestartAlternates(p, a, n)
  {
    n := 9;
    BurstReopens(p, a, n);
    var next := Marks(p, a + 1, n);
    OpenAfter(p, a);
    BurstsBracketed(p, a + 1, n);
    var marks := [BurstStart] + next;
    assert marks[0] == marks[0 + 1];
  }

  /** Between a special subframe and the same one of the next frame a burst starts. */
  lemma BurstReopens(p: seq<SfType>, a: nat, n: nat)
    requires BurstShaped(p) && p[SfOf(a)] == S && n == 9
    ensures Marks(p, a + 1, n) != []
  {
    assert Fits(p, SfOf(a));
    assert SfOf(a + n) == if SfOf(a) == 0 then 9 else SfOf(a) - 1;
    OpenAfter(p, a);
    OpenAfter(p, a + n);
    BurstsBracketed(p, a + 1, n);
  }

  // The same on what the calls write.

  /** The calls of `n` consecutive subframes from `a0` in which nothing goes wrong. */
  function Calls(p: seq<SfType>, a0: nat, n: nat): seq<Event>
    requires |p| == 10
  {
    if n == 0 then [] else Calls(p, a0, n - 1) + CallFor(FlagAt(p, a0 + n - 1))
  }

  function CallFor(f: Option<Flag>): seq<Event> {
    if f.Some? then [Tx(f.value, false)] else []
  }

  function MarksOf(outs: seq<Option<Flag>>): seq<Flag> {
    if outs == [] then [] else MarksOf(outs[..|outs| - 1]) + Mark(outs[|outs| - 1])
  }

  lemma MarksOfSnoc(outs: seq<Option<Flag>>, f: Option<Flag>)
    ensures MarksOf(outs + [f]) == MarksOf(outs) + Mark(f)
  {
    assert (outs + [f])[..|outs|] == outs;
  }

  lemma {:induction false} CallsFaultFree(p: seq<SfType>, a0: nat, n: nat)
    requires |p| == 10
    ensures FaultFree(Calls(p, a0, n))
  {
    if n > 0 { CallsFaultFree(p, a0, n - 1); }
  }

  /** The START and END flags a fault-free stretch writes, `left` calls away from the normal state. */
  function WrittenMarks(left: nat, calls: seq<Event>): seq<Flag>
    requires FaultFree(calls)
  {
    if calls == [] then []
    else
      var n := |calls| - 1;
      assert calls[n] in calls;
      WrittenMarks(left, calls[..n]) + Mark(Written(left - n, calls[n].base))
  }

  lemma {:induction false} WrittenMarksAre(left: nat, calls: seq<Event>)
    requires FaultFree(calls)
    ensures MarksOf(AllWritten(left, calls)) == WrittenMarks(left, calls)
  {
    if calls != [] {
      var n := |calls| - 1;
      assert calls[n] in calls;
      WrittenMarksAre(left, calls[..n]);
      MarksOfSnoc(AllWritten(left, calls[..n]), Written(left - n, calls[n].base));
    }
  }

  /** One more subframe. */
  lemma OneMoreCall(left: nat, calls: seq<Event>, f: Option<Flag>)
    requires FaultFree(calls)
    ensures FaultFree(calls + CallFor(f))
    ensures WrittenMarks(left, calls + CallFor(f))
         == WrittenMarks(left, calls) + if f.Some? then Mark(Written(left - |calls|, f.value)) else []
  {
    if f.Some? {
      assert (calls + [Tx(f.value, false)])[..|calls|] == calls;
    } else {
      assert calls + CallFor(f) == calls;
    }
  }

  lemma NormalStep(left: nat, calls: seq<Event>, f: Option<Flag>, marks: seq<Flag>)
    requires FaultFree(calls) && left == 0 && WrittenMarks(left, calls) == marks
    ensures FaultFree(calls + CallFor(f)) && WrittenMarks(left, calls + CallFor(f)) == marks + Mark(f)
  {
    OneMoreCall(left, calls, f);
  }

  /** Fault-free calls in the normal state write the flags of the pattern. */
  lemma {:induction false} NormalMarks(p: seq<SfType>, a0: nat, n: nat, left: nat)
    requires |p| == 10 && left == 0
    ensures FaultFree(Calls(p, a0, n)) && WrittenMarks(left, Calls(p, a0, n)) == Marks(p, a0, n)
    decreases n
  {
    if n > 0 {
      NormalMarks(p, a0, n - 1, left);
      NormalStep(left, Calls(p, a0, n - 1), FlagAt(p, a0 + n - 1), Marks(p, a0, n - 1));
    }
  }

  lemma {:induction false} CallsSplit(p: seq<SfType>, a: nat, n: nat)
    requires |p| == 10
    ensures Calls(p, a, n + 1) == CallFor(FlagAt(p, a)) + Calls(p, a + 1, n)
  {
    if n > 0 {
      CallsSplit(p, a, n - 1);
      Regroup(CallFor(FlagAt(p, a)), Calls(p, a + 1, n - 1), CallFor(FlagAt(p, a + n)), Calls(p, a, n));
    }
  }

  lemma Regroup(first: seq<Event>, middle: seq<Event>, last: seq<Event>, init: seq<Event>)
    requires init == first + middle
    ensures init + last == first + (middle + last)
  {
  }

  /** The call that restarts the burst writes a START, and the calls after it are back in the normal state. */
  lemma {:induction false} RestartsFirst(e: Event, calls: seq<Event>, one: nat, zero: nat)
    requires FaultFree([e] + calls) && FaultFree(calls) && one == 1 && zero == 0
    ensures WrittenMarks(one, [e] + calls) == [BurstStart] + WrittenMarks(zero, calls)
    decreases |calls|
  {
    var all := [e] + calls;
    if calls == [] {
      assert all[..0] == [];
    } else {
      var n := |calls| - 1;
      var init := [e] + calls[..n];
      assert all[..n + 1] == init && all[n + 1] == calls[n];
      assert FaultFree(init) && FaultFree(calls[..n]);
      RestartsFirst(e, calls[..n], one, zero);
    }
  }

  /** From a restart on, a START stands in place of the first subframe's own flag. */
  lemma RestartMarks(p: seq<SfType>, a: nat, n: nat, one: nat, zero: nat)
    requires |p| == 10 && p[SfOf(a)] != UL && one == 1 && zero == 0
    ensures FaultFree(Calls(p, a, n + 1))
    ensures WrittenMarks(one, Calls(p, a, n + 1)) == [BurstStart] + Marks(p, a + 1, n)
  {
    var f, calls := FlagAt(p, a), Calls(p, a + 1, n);
    CallsSplit(p, a, n);
    CallsFaultFree(p, a, n + 1);
    NormalMarks(p, a + 1, n, zero);
    RestartsFirst(Tx(f.value, false), calls, one, zero);
  }

  /** What the calls of `n` subframes from `a` write after a run. */
  function NewOutputs(before: seq<Event>, p: seq<SfType>, a: nat, n: nat, writeThread: bool): seq<Option<Flag>>
    requires |p| == 10
  {
    var all, old' := Outputs(before + Calls(p, a, n), writeThread), |Outputs(before, writeThread)|;
    if old' <= |all| then all[old'..] else []
  }

  lemma NewOutputsAre(before: seq<Event>, p: seq<SfType>, a: nat, n: nat, writeThread: bool)
    requires |p| == 10
    ensures FaultFree(Calls(p, a, n))
    ensures NewOutputs(before, p, a, n, writeThread)
         == AllWritten(CallsToNormal(StateAfter(before, writeThread)), Calls(p, a, n))
    ensures MarksOf(NewOutputs(before, p, a, n, writeThread))
         == WrittenMarks(CallsToNormal(StateAfter(before, writeThread)), Calls(p, a, n))
  {
    CallsFaultFree(p, a, n);
    FaultFreeWrites(before, Calls(p, a, n), writeThread);
    WrittenMarksAre(CallsToNormal(StateAfter(before, writeThread)), Calls(p, a, n));
  }

  /** In every run that is in the normal state, whatever came before: the START and END flags that the calls of
      a fault-free stretch write are those of the pattern, and alternate strictly. */
  lemma WritesBracketed(before: seq<Event>, p: seq<SfType>, a: nat, n: nat, writeThread: bool)
    requires BurstShaped(p) && StateAfter(before, writeThread) == Normal
    ensures MarksOf(NewOutputs(before, p, a, n, writeThread)) == Marks(p, a, n)
    ensures Alternates(MarksOf(NewOutputs(before, p, a, n, writeThread)))
  {
    NewOutputsAre(before, p, a, n, writeThread);
    NormalMarks(p, a, n, CallsToNormal(StateAfter(before, writeThread)));
    BurstsBracketed(p, a, n);
  }

  /** So from the start of a run. */
  lemma StartBracketed(p: seq<SfType>, a: nat, n: nat, writeThread: bool)
    requires BurstShaped(p)
    ensures MarksOf(Outputs(Calls(p, a, n), writeThread)) == Marks(p, a, n)
    ensures Alternates(MarksOf(Outputs(Calls(p, a, n), writeThread)))
  {
    WritesBracketed([], p, a, n, writeThread);
    assert [] + Calls(p, a, n) == Calls(p, a, n);
    assert NewOutputs([], p, a, n, writeThread) == Outputs(Calls(p, a, n), writeThread);
  }

  /** The flags written in subframe `a`, where the burst is restarted, and the `n` subframes after it. */
  ghost predicate WritesAlternate(before: seq<Event>, p: seq<SfType>, a: nat, n: nat, writeThread: bool)
    requires |p| == 10
  {
    Alternates(MarksOf(NewOutputs(before, p, a, n + 1, writeThread)))
  }

  /** In every run that is about to restart the burst in subframe `a`: the flags written from there on
      alternate exactly when `a` is a downlink subframe. */
  lemma RestartBracketedIff(before: seq<Event>, p: seq<SfType>, a: nat, writeThread: bool)
    requires BurstShaped(p) && p[SfOf(a)] != UL && StateAfter(before, writeThread) == Restart
    ensures (forall n: nat :: WritesAlternate(before, p, a, n, writeThread)) <==> p[SfOf(a)] == DL
  {
    forall n: nat ensures WritesAlternate(before, p, a, n, writeThread) <==> RestartAlternates(p, a, n) {
      RestartWrites(before, p, a, n, writeThread);
    }
    RestartIff(p, a);
  }

  lemma RestartIff(p: seq<SfType>, a: nat)
    requires BurstShaped(p) && p[SfOf(a)] != UL
    ensures (forall n: nat :: RestartAlternates(p, a, n)) <==> p[SfOf(a)] == DL
  {
    if p[SfOf(a)] == DL {
      forall n: nat ensures RestartAlternates(p, a, n) { DownlinkRestart(p, a, n); }
    } else {
      var n := SpecialRestart(p, a);
    }
  }

  lemma RestartWrites(before: seq<Event>, p: seq<SfType>, a: nat, n: nat, writeThread: bool)
    requires |p| == 10 && p[SfOf(a)] != UL && StateAfter(before, writeThread) == Restart
    ensures WritesAlternate(before, p, a, n, writeThread) <==> RestartAlternates(p, a, n)
  {
    NewOutputsAre(before, p, a, n + 1, writeThread);
    RestartMarks(p, a, n, CallsToNormal(StateAfter(before, writeThread)), 0);
    assert MarksOf(NewOutputs(before, p, a, n + 1, writeThread)) == [BurstStart] + Marks(p, a + 1, n);
  }

  lemma Snoc(run: seq<Event>, e: Event, writeThread: bool)
    ensures StateAfter(run + [e], writeThread) == Step(StateAfter(run, writeThread), e, writeThread).0
    ensures Outputs(run + [e], writeThread)
         == Outputs(run, writeThread) + Step(StateAfter(run, writeThread), e, writeThread).1
  {
    assert (run + [e])[..|run|] == run;
  }

  /** Bracketing is lost when the restart falls on a special subframe: a fault before the special
      subframe 6 of configuration 1 makes the special subframe 1 write a START that no END follows
      before the START of subframe 4. */
  lemma RestartOnSpecialUnbracketed()
    ensures var p := TddPattern(1);
      && FlagAt(p, 6) == Some(BurstEnd) && FlagAt(p, 9) == Some(BurstStart) && FlagAt(p, 10) == Some(BurstMiddle)
      && FlagAt(p, 11) == Some(BurstEnd) && FlagAt(p, 14) == Some(BurstStart)
    ensures Outputs([RxFault] + [Tx(BurstEnd, false)] + [Tx(BurstStart, false)] + [Tx(BurstMiddle, false)]
                    + [Tx(BurstEnd, false)] + [Tx(BurstStart, false)], false)
      == [Some(BurstEndNoTimeSpec)] + [None] + [None] + [Some(BurstStart)] + [Some(BurstStart)]
  {
    var r1 := [RxFault];
    assert [] + [RxFault] == r1;
    Snoc([], RxFault, false);
    var r2 := r1 + [Tx(BurstEnd, false)];
    Snoc(r1, Tx(BurstEnd, false), false);
    assert Outputs(r2, false) == [Some(BurstEndNoTimeSpec)];
    var r3 := r2 + [Tx(BurstStart, false)];
    Snoc(r2, Tx(BurstStart, false), false);
    var r4 := r3 + [Tx(BurstMiddle, false)];
    Snoc(r3, Tx(BurstMiddle, false), false);
    var r5 := r4 + [Tx(BurstEnd, false)];
    Snoc(r4, Tx(BurstEnd, false), false);
    Snoc(r5, Tx(BurstStart, false), false);
  }
}
