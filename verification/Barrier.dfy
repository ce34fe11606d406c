/** The rendezvous of several radio units in `wakeup_L1s`: one mask per subframe number, one bit per
    unit; the L1 is woken when the mask of the reported subframe is full. */
module Barrier {
  import opened BitMasks

  datatype RuState = Run | Sync | OtherState

  datatype Ru = Ru(waitCnt: int, state: RuState, isSlave: bool)

  /** A call ends the wait of every unit on its last count, except in subframe 9. */
  function Thaw(ru: Ru, tti: nat): Ru {
    if ru.waitCnt == 1 && tti != 9 then ru.(waitCnt := 0) else ru
  }

  /** A call by unit `caller` for subframe `tti`, with the units as the call sees them. */
  datatype Call = Call(caller: nat, tti: nat, rus: seq<Ru>)

  /** The units a call accounts for: the caller unless it is still waiting, every unit in
      synchronisation, and every other slave inside its wait window. */
  ghost predicate Accounts(c: Call, i: nat) {
    && i < |c.rus|
    && (if i == c.caller && c.rus[i].waitCnt == 0 then true
        else c.rus[i].state == Sync || (c.rus[i].isSlave && c.rus[i].waitCnt > 0 && i != c.caller))
  }

  ghost function Accounted(c: Call): (s: set<nat>)
    ensures forall i: nat :: i in s <==> Accounts(c, i)
  {
    set i: nat | i in Range(|c.rus|) && Accounts(c, i)
  }

  // ---------------------------------------------------------------- histories

  /** The units accounted for in subframe `s` since its mask was last reset, for `n` units. */
  ghost function Pending(log: seq<Call>, s: nat, n: nat): set<nat> {
    if log == [] then {}
    else
      var before, c := Pending(log[..|log| - 1], s, n), log[|log| - 1];
      if c.tti != s then before
      else if before + Accounted(c) == Range(n) then {}
      else before + Accounted(c)
  }

  /** The last call of the history completes its subframe. */
  ghost predicate Fires(log: seq<Call>, n: nat) {
    && log != []
    && Pending(log[..|log| - 1], log[|log| - 1].tti, n) + Accounted(log[|log| - 1]) == Range(n)
  }

  /** The position after the last call that completed subframe `s`. */
  ghost function LastFire(log: seq<Call>, s: nat, n: nat): (k: nat)
    ensures k <= |log|
  {
    if log == [] then 0
    else if log[|log| - 1].tti == s && Fires(log, n) then |log|
    else LastFire(log[..|log| - 1], s, n)
  }

  /** Some call from position `from` on, for subframe `s`, accounts for unit `i`. */
  ghost predicate AccountedSince(log: seq<Call>, from: nat, s: nat, i: nat) {
    exists k :: from <= k < |log| && log[k].tti == s && Accounts(log[k], i)
  }

  ghost predicate AllAccountedSince(log: seq<Call>, from: nat, s: nat, n: nat) {
    forall i: nat :: i < n ==> AccountedSince(log, from, s, i)
  }

  lemma SinceSnoc(log: seq<Call>, from: nat, s: nat, i: nat)
    requires log != [] && from < |log|
    ensures AccountedSince(log, from, s, i) <==>
      AccountedSince(log[..|log| - 1], from, s, i) || (log[|log| - 1].tti == s && Accounts(log[|log| - 1], i))
  {
    var n := |log| - 1;
    if AccountedSince(log[..n], from, s, i) {
      var k :| from <= k < n && log[..n][k].tti == s && Accounts(log[..n][k], i);
      assert log[k] == log[..n][k];
    }
    if AccountedSince(log, from, s, i) {
      var k :| from <= k < |log| && log[k].tti == s && Accounts(log[k], i);
      assert k < n ==> log[..n][k] == log[k];
    }
  }

  /** The mask of a subframe holds exactly the units accounted for since the subframe last completed. */
  lemma {:induction false} PendingIs(log: seq<Call>, s: nat, n: nat, i: nat)
    ensures i in Pending(log, s, n) <==> AccountedSince(log, LastFire(log, s, n), s, i)
    decreases |log|
  {
    if log != [] {
      var init, c := log[..|log| - 1], log[|log| - 1];
      PendingIs(init, s, n, i);
      if !(c.tti == s && Fires(log, n)) {
        SinceSnoc(log, LastFire(init, s, n), s, i);
      }
    }
  }

  /** Safety and completeness of the barrier for any number of units, in any condition, and any sequence
      of calls: a call completes its subframe exactly when every unit has been accounted for, in that
      subframe, since the subframe last completed. */
  lemma FiresIff(log: seq<Call>, n: nat)
    requires log != [] && forall c :: c in log ==> |c.rus| == n
    ensures Fires(log, n) <==>
      AllAccountedSince(log, LastFire(log[..|log| - 1], log[|log| - 1].tti, n), log[|log| - 1].tti, n)
  {
    var init, c := log[..|log| - 1], log[|log| - 1];
    var from := LastFire(init, c.tti, n);
    forall i: nat ensures i in Pending(init, c.tti, n) + Accounted(c) <==> AccountedSince(log, from, c.tti, i) {
      PendingIs(init, c.tti, n, i);
      SinceSnoc(log, from, c.tti, i);
    }
    forall i | i in Pending(init, c.tti, n) + Accounted(c) ensures i in Range(n) {
      var k :| from <= k < |log| && log[k].tti == c.tti && Accounts(log[k], i);
      assert log[k] in log;
    }
    if Fires(log, n) {
      forall i: nat | i < n ensures AccountedSince(log, from, c.tti, i) { assert i in Range(n); }
    }
  }

  /** The caller does not wait or is in synchronisation, and every other unit is in synchronisation or a slave that
      waits. */
  predicate Ready(c: Call)
    requires c.caller < |c.rus|
  {
    && (c.rus[c.caller].waitCnt == 0 || c.rus[c.caller].state == Sync)
    && forall i :: 0 <= i < |c.rus| && i != c.caller ==>
         c.rus[i].state == Sync || (c.rus[i].isSlave && c.rus[i].waitCnt > 0)
  }

  /** What the first call after a completion needs to complete the subframe again. */
  lemma OneCallFires(log: seq<Call>, c: Call, n: nat)
    requires |c.rus| == n && c.caller < n && Pending(log, c.tti, n) == {}
    ensures Fires(log + [c], n) <==> Ready(c)
  {
    assert (log + [c])[..|log|] == log;
    assert Accounts(c, c.caller) <==> c.rus[c.caller].waitCnt == 0 || c.rus[c.caller].state == Sync;
    assert {} + Accounted(c) == Accounted(c);
    if Accounted(c) == Range(n) {
      assert c.caller in Range(n);
      forall i | 0 <= i < n && i != c.caller
        ensures c.rus[i].state == Sync || (c.rus[i].isSlave && c.rus[i].waitCnt > 0)
      {
        assert i in Range(n) && Accounts(c, i);
      }
    }
    if Ready(c) {
      forall i: nat | i < n ensures Accounts(c, i) { }
      assert Accounted(c) == Range(n);
    }
  }

  /** A slave reports on its last count while the others are in synchronisation or wait longer: the subframe is
      completed, and the wait over, so that the L1 is woken, in every subframe but 9. */
  lemma LastCountWakes(log: seq<Call>, before: seq<Ru>, rus: seq<Ru>, caller: nat, tti: nat, n: nat)
    requires |before| == |rus| == n && caller < n && Pending(log, tti, n) == {}
    requires forall i :: 0 <= i < n ==> rus[i] == Thaw(before[i], tti)
    requires before[caller].waitCnt == 1 && before[caller].state != Sync
    requires forall i :: 0 <= i < n && i != caller ==>
      before[i].state == Sync || (before[i].isSlave && before[i].waitCnt > 1)
    ensures Fires(log + [Call(caller, tti, rus)], n) <==> tti != 9
    ensures rus[caller].waitCnt == 0 <==> tti != 9
  {
    OneCallFires(log, Call(caller, tti, rus), n);
  }

  /** A completed subframe need not wake the L1: here a waiting slave makes the completing call. */
  lemma CompletionByWaitingUnit()
    ensures var slave := Ru(5, Run, true);
      var log := [Call(1, 0, [slave, Ru(0, Run, false), Ru(0, Run, false)])]
               + [Call(0, 0, [slave, Ru(0, Run, false), Ru(0, Sync, false)])];
      Fires(log, 3) && log[1].rus[log[1].caller].waitCnt > 0
  {
    var slave := Ru(5, Run, true);
    var first := Call(1, 0, [slave, Ru(0, Run, false), Ru(0, Run, false)]);
    var second := Call(0, 0, [slave, Ru(0, Run, false), Ru(0, Sync, false)]);
    var log := [first] + [second];
    assert log[..1] == [first] && [first][..0] == [];
    assert Accounted(first) == {0, 1};
    assert Accounted(second) == {2};
    assert Range(3) == {0, 1, 2};
    assert 2 in Range(3) && 2 !in {0, 1};
    assert Pending([first], 0, 3) == {0, 1};
  }

  // ---------------------------------------------------------------- the eNB side

  /** The receive masks of an eNB and its list of units; `log` is the history of calls. */
  class L1Barrier {
    const n: nat
    var ruMask: seq<nat>
    var rus: seq<Ru>
    ghost var log: seq<Call>

    ghost predicate Valid()
      reads this
    {
      && |ruMask| == 10 && |rus| == n
      && (forall c :: c in log ==> |c.rus| == n)
      && forall s :: 0 <= s < 10 ==> Bits(ruMask[s]) == Pending(log, s, n)
    }

    /** `init_eNB_proc` clears the masks. */
    constructor(rus: seq<Ru>)
      ensures Valid() && this.rus == rus && log == [] && n == |rus|
    {
      n := |rus|;
      ruMask := seq(10, _ => 0);
      this.rus := rus;
      log := [];
      ZeroIffEmpty(0);
    }

    /** `wakeup_L1s` by unit `caller` for subframe `tti`: whether the subframe is completed, and whether
        the L1 is woken. */
    method WakeupL1s(caller: nat, tti: nat) returns (fired: bool, woken: bool)
      requires Valid() && caller < n && tti < 10
      modifies this
      ensures Valid()
      ensures |rus| == n && forall i :: 0 <= i < n ==> rus[i] == Thaw(old(rus)[i], tti)
      ensures log == old(log) + [Call(caller, tti, rus)]
      ensures fired <==> Fires(log, n)
      ensures woken <==> fired && rus[caller].waitCnt == 0
      ensures forall s :: 0 <= s < 10 && s != tti ==> ruMask[s] == old(ruMask)[s]
    {
      ghost var before := ruMask;
      var mask := ruMask[tti];
      ghost var marked: set<nat> := {};
      for i := 0 to n
        invariant |rus| == n && ruMask == old(ruMask) && log == old(log)
        invariant forall k :: 0 <= k < n ==> rus[k] == if k < i then Thaw(old(rus)[k], tti) else old(rus)[k]
        invariant Bits(mask) == Bits(before[tti]) + marked
        invariant forall k: nat :: k in marked <==> k < i && Accounts(Call(caller, tti, rus), k)
      {
        if rus[i].waitCnt == 1 && tti != 9 { rus := rus[i := rus[i].(waitCnt := 0)]; }
        SetAndClear(mask, i);
        if caller == i && rus[i].waitCnt == 0 {
          mask := Or(mask, Pow2(i));
          marked := marked + {i};
        } else if rus[i].state == Sync || (rus[i].isSlave && rus[i].waitCnt > 0 && caller != i) {
          mask := Or(mask, Pow2(i));
          marked := marked + {i};
        }
      }
      ghost var c := Call(caller, tti, rus);
      assert marked == Accounted(c);
      log := log + [c];
      assert log[..|log| - 1] == old(log);
      FullIffRange(mask, n);
      ZeroIffEmpty(0);
      fired := mask == Full(n);
      woken := fired && rus[caller].waitCnt == 0;
      ruMask := ruMask[tti := if fired then 0 else mask];
    }
  }
}
