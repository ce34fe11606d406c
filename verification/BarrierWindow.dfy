/** The barrier with all units running: when every unit reports the subframes in order and none is ten
    or more ahead of another, the barrier completes each subframe exactly once, in order, on the report
    of the last unit, for every interleaving of the calls. */
module BarrierWindow {
  import opened BitMasks
  import opened FrameParms
  import opened Barrier

  /** How many calls unit `r` has made. */
  function Count(log: seq<Call>, r: nat): nat {
    if log == [] then 0
    else Count(log[..|log| - 1], r) + (if log[|log| - 1].caller == r then 1 else 0)
  }

  /** How many calls completed a subframe. */
  ghost function Firings(log: seq<Call>, n: nat): nat {
    if log == [] then 0 else Firings(log[..|log| - 1], n) + (if Fires(log, n) then 1 else 0)
  }

  /** No unit is in synchronisation and none waits. */
  predicate AllRunning(c: Call, n: nat) {
    |c.rus| == n && forall i :: 0 <= i < n ==> c.rus[i].waitCnt == 0 && c.rus[i].state != Sync
  }

  /** The next call of a running unit, from subframe `a0`: the m-th call of a unit is for subframe
      `a0 + m`, and it is not made before all others have made theirs for subframe `a0 + m - 10`. */
  ghost predicate NextCall(init: seq<Call>, c: Call, n: nat, a0: nat) {
    && c.caller < n && AllRunning(c, n)
    && c.tti == SfOf(a0 + Count(init, c.caller))
    && forall r: nat :: r < n ==> Count(init, r) + 10 > Count(init, c.caller)
  }

  /** Every interleaving of such calls. */
  ghost predicate Windowed(log: seq<Call>, n: nat, a0: nat) {
    log == [] || (Windowed(log[..|log| - 1], n, a0) && NextCall(log[..|log| - 1], log[|log| - 1], n, a0))
  }

  /** The units that have reported subframe `a0 + m`. */
  ghost function Reported(log: seq<Call>, n: nat, m: nat): (s: set<nat>)
    ensures forall r: nat :: r in s <==> r < n && Count(log, r) > m
  {
    set r | r in Range(n) && Count(log, r) > m
  }

  /** As many subframes are complete as every unit has reported, and every unit is at most ten ahead. */
  ghost predicate Balanced(log: seq<Call>, n: nat) {
    var w := Firings(log, n);
    && (forall r: nat :: r < n ==> w <= Count(log, r) <= w + 10)
    && Reported(log, n, w) != Range(n)
  }

  /** The ten masks hold exactly the reports of the ten subframes to come. */
  ghost predicate MasksMatch(log: seq<Call>, n: nat, a0: nat) {
    forall m: nat :: Firings(log, n) <= m < Firings(log, n) + 10 ==> MaskMatches(log, n, a0, m)
  }

  ghost predicate MaskMatches(log: seq<Call>, n: nat, a0: nat, m: nat) {
    Pending(log, SfOf(a0 + m), n) == Reported(log, n, m)
  }

  /** The barrier after a history. */
  ghost predicate InStep(log: seq<Call>, n: nat, a0: nat) {
    Balanced(log, n) && MasksMatch(log, n, a0)
  }

  lemma SameOccurrence(a0: nat, w: nat, m: nat, k: nat)
    requires w <= m < w + 10 && w <= k < w + 10 && SfOf(a0 + m) == SfOf(a0 + k)
    ensures m == k
  {
  }

  /** The effect of one more call on the counts and on the masks. */
  lemma Snoc(init: seq<Call>, c: Call, n: nat)
    ensures forall r: nat :: Count(init + [c], r) == Count(init, r) + (if c.caller == r then 1 else 0)
    ensures Fires(init + [c], n) <==> Pending(init, c.tti, n) + Accounted(c) == Range(n)
    ensures Firings(init + [c], n) == Firings(init, n) + (if Fires(init + [c], n) then 1 else 0)
    ensures forall s: nat :: s != c.tti ==> Pending(init + [c], s, n) == Pending(init, s, n)
    ensures Pending(init + [c], c.tti, n) == if Fires(init + [c], n) then {} else Pending(init, c.tti, n) + Accounted(c)
  {
    assert (init + [c])[..|init|] == init;
  }

  /** A report is for one of the ten subframes to come ... */
  lemma CallerInWindow(init: seq<Call>, c: Call, n: nat, a0: nat)
    requires Balanced(init, n) && NextCall(init, c, n, a0)
    ensures Firings(init, n) <= Count(init, c.caller) < Firings(init, n) + 10
  {
    var w := Firings(init, n);
    var low :| low in Range(n) && low !in Reported(init, n, w);
    assert Count(init, low) == w;
  }

  /** What one more call changes in the reports of a subframe. */
  lemma ReportedSnoc(init: seq<Call>, c: Call, n: nat, m: nat)
    requires c.caller < n
    ensures Reported(init + [c], n, m) == Reported(init, n, m) + (if Count(init, c.caller) == m then {c.caller} else {})
  {
    Snoc(init, c, n);
  }

  /** ... and the mask then holds all its reports, so that it completes the subframe exactly if it is the
      last of them. */
  lemma ReportInWindow(init: seq<Call>, c: Call, n: nat, a0: nat)
    requires InStep(init, n, a0) && NextCall(init, c, n, a0)
    ensures Pending(init, c.tti, n) + Accounted(c) == Reported(init + [c], n, Count(init, c.caller))
    ensures Fires(init + [c], n) <==> Reported(init + [c], n, Count(init, c.caller)) == Range(n)
  {
    var m := Count(init, c.caller);
    CallerInWindow(init, c, n, a0);
    assert MaskMatches(init, n, a0, m);
    ReportedSnoc(init, c, n, m);
    assert Accounted(c) == {c.caller};
    Snoc(init, c, n);
  }

  /** A completing call is for the oldest subframe to come. */
  lemma CompletesOldest(init: seq<Call>, c: Call, n: nat, a0: nat)
    requires Balanced(init, n) && NextCall(init, c, n, a0)
    requires Reported(init + [c], n, Count(init, c.caller)) == Range(n)
    ensures Count(init, c.caller) == Firings(init, n)
  {
    var m, w := Count(init, c.caller), Firings(init, n);
    var low :| low in Range(n) && low !in Reported(init, n, w);
    ReportedSnoc(init, c, n, m);
    assert low in Reported(init + [c], n, m);
  }

  /** The masks of the other subframes to come stay as they are. */
  lemma OthersKept(init: seq<Call>, c: Call, n: nat, a0: nat, m: nat)
    requires InStep(init, n, a0) && NextCall(init, c, n, a0)
    requires Firings(init, n) <= m < Firings(init, n) + 10 && m != Count(init, c.caller)
    ensures MaskMatches(init + [c], n, a0, m)
  {
    CallerInWindow(init, c, n, a0);
    if SfOf(a0 + m) == c.tti { SameOccurrence(a0, Firings(init, n), m, Count(init, c.caller)); }
    assert MaskMatches(init, n, a0, m);
    Snoc(init, c, n);
    ReportedSnoc(init, c, n, m);
  }

  /** The mask of the call's own subframe takes the report, unless that completes it. */
  lemma OwnKept(init: seq<Call>, c: Call, n: nat, a0: nat)
    requires InStep(init, n, a0) && NextCall(init, c, n, a0) && !Fires(init + [c], n)
    ensures MaskMatches(init + [c], n, a0, Count(init, c.caller))
  {
    ReportInWindow(init, c, n, a0);
    Snoc(init, c, n);
  }

  /** The mask of a completed subframe is empty, and so are the reports of the one ten later. */
  lemma CompletedEmpties(init: seq<Call>, c: Call, n: nat, a0: nat)
    requires Balanced(init, n) && NextCall(init, c, n, a0) && Fires(init + [c], n)
    requires Count(init, c.caller) == Firings(init, n)
    ensures MaskMatches(init + [c], n, a0, Firings(init, n) + 10)
  {
    var m := Firings(init, n) + 10;
    assert SfOf(a0 + m) == c.tti;
    Snoc(init, c, n);
    ReportedSnoc(init, c, n, m);
    assert Reported(init, n, m) == {};
  }

  /** The counts stay balanced when a call completes a subframe ... */
  lemma FiringBalanced(init: seq<Call>, c: Call, n: nat, a0: nat)
    requires Balanced(init, n) && NextCall(init, c, n, a0) && Fires(init + [c], n)
    requires Reported(init + [c], n, Count(init, c.caller)) == Range(n)
    ensures Balanced(init + [c], n)
  {
    var w, log := Firings(init, n), init + [c];
    CompletesOldest(init, c, n, a0);
    Snoc(init, c, n);
    assert forall r: nat :: r < n ==> r in Reported(log, n, w);
    assert c.caller in Range(n) && c.caller !in Reported(log, n, w + 1);
  }

  /** ... and when it does not. */
  lemma WaitingBalanced(init: seq<Call>, c: Call, n: nat, a0: nat)
    requires Balanced(init, n) && NextCall(init, c, n, a0) && !Fires(init + [c], n)
    requires Reported(init + [c], n, Count(init, c.caller)) != Range(n)
    ensures Balanced(init + [c], n)
  {
    CallerInWindow(init, c, n, a0);
    Snoc(init, c, n);
    ReportedSnoc(init, c, n, Firings(init, n));
  }

  lemma FiringKeeps(init: seq<Call>, c: Call, n: nat, a0: nat)
    requires InStep(init, n, a0) && NextCall(init, c, n, a0) && Fires(init + [c], n)
    ensures InStep(init + [c], n, a0)
  {
    var w, log := Firings(init, n), init + [c];
    ReportInWindow(init, c, n, a0);
    CompletesOldest(init, c, n, a0);
    FiringBalanced(init, c, n, a0);
    Snoc(init, c, n);
    forall m: nat | w + 1 <= m < w + 11 ensures MaskMatches(log, n, a0, m) {
      if m == w + 10 { CompletedEmpties(init, c, n, a0); } else { OthersKept(init, c, n, a0, m); }
    }
  }

  lemma WaitingKeeps(init: seq<Call>, c: Call, n: nat, a0: nat)
    requires InStep(init, n, a0) && NextCall(init, c, n, a0) && !Fires(init + [c], n)
    ensures InStep(init + [c], n, a0)
  {
    var k, w, log := Count(init, c.caller), Firings(init, n), init + [c];
    ReportInWindow(init, c, n, a0);
    WaitingBalanced(init, c, n, a0);
    Snoc(init, c, n);
    forall m: nat | w <= m < w + 10 ensures MaskMatches(log, n, a0, m) {
      if m == k { OwnKept(init, c, n, a0); } else { OthersKept(init, c, n, a0, m); }
    }
  }

  /** Over every interleaving: the barrier has completed exactly the subframes that all units have
      reported. */
  lemma {:induction false} BarrierInStep(log: seq<Call>, n: nat, a0: nat)
    requires n > 0 && Windowed(log, n, a0)
    ensures InStep(log, n, a0)
    decreases |log|
  {
    if log == [] {
      forall m: nat ensures Reported(log, n, m) == {} { }
      assert 0 in Range(n);
    } else {
      var init, c := log[..|log| - 1], log[|log| - 1];
      assert init + [c] == log;
      BarrierInStep(init, n, a0);
      if Fires(log, n) { FiringKeeps(init, c, n, a0); } else { WaitingKeeps(init, c, n, a0); }
    }
  }

  /** Each call: it completes its subframe exactly if it is the last of the reports for it, and the
      subframe completed is the one after those completed before, so completions come once each and in
      order. */
  lemma CompletesInOrder(log: seq<Call>, n: nat, a0: nat)
    requires log != [] && n > 0 && Windowed(log, n, a0)
    ensures var init, c := log[..|log| - 1], log[|log| - 1];
      var m := Count(init, c.caller);
      && (Fires(log, n) <==> Reported(log, n, m) == Range(n))
      && (Fires(log, n) ==> m == Firings(init, n) && c.tti == SfOf(a0 + Firings(init, n)))
  {
    var init, c := log[..|log| - 1], log[|log| - 1];
    assert init + [c] == log;
    assert c.tti == SfOf(a0 + Count(init, c.caller));
    BarrierInStep(init, n, a0);
    ReportInWindow(init, c, n, a0);
    if Fires(log, n) { CompletesOldest(init, c, n, a0); }
  }
}
