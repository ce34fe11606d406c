/** The ring of receive-slot buffers: the radio unit never writes a buffer that the L1 still works on; and it
    can come to wait for a buffer that nobody will free exactly when the transmit thread drops one of its
    slots whose buffer a later one needs. */
module RxRing {
  import opened GnbPipeline

  /** Every slot between the radio unit and the report of its completion, oldest first. */
  function InFlight(s: State): seq<Msg> {
    s.rxOut + Flow(s) + (if s.ru.Writing? then [s.ru.m] else [])
  }

  /** Buffered slots in flight occupy different buffers. */
  ghost predicate Separate(cfg: Cfg, q: seq<Msg>) {
    forall i, j :: 0 <= i < j < |q| && Buffered(cfg, q[i]) && Buffered(cfg, q[j]) ==> Zone(q[i]) != Zone(q[j])
  }

  /** Their buffers are marked busy. */
  ghost predicate Marked(cfg: Cfg, busy: seq<bool>, q: seq<Msg>) {
    |busy| == DEPTH && forall m :: m in q && Buffered(cfg, m) ==> busy[Zone(m)]
  }

  ghost predicate Shape(cfg: Cfg, s: State) {
    && |s.rxHand| <= 1 && |s.txHand| <= 1
    && (s.ru.Writing? ==> Buffered(cfg, s.ru.m))
    && (s.ru.Freeing? ==> Buffered(cfg, s.ru.m))
    && (cfg.feprx ==> forall m :: m in s.rxOut ==> Buffered(cfg, m))
    && (!cfg.feprx ==> s.ru.Ready?)
  }

  ghost predicate RingSafe(cfg: Cfg, s: State) {
    Shape(cfg, s) && Separate(cfg, InFlight(s)) && Marked(cfg, s.busy, InFlight(s))
  }

  // ---------------------------------------------------------------- how steps move slots

  /** Dropping one slot from the middle keeps the rest apart. */
  lemma DropKeeps(cfg: Cfg, busy: seq<bool>, p: seq<Msg>, m: Msg, q: seq<Msg>)
    requires Separate(cfg, p + [m] + q) && Marked(cfg, busy, p + [m] + q)
    ensures Separate(cfg, p + q) && Marked(cfg, busy, p + q)
  {
    var old', new' := p + [m] + q, p + q;
    forall i | 0 <= i < |new'| ensures new'[i] == old'[if i < |p| then i else i + 1] { }
    forall i, j | 0 <= i < j < |new'| && Buffered(cfg, new'[i]) && Buffered(cfg, new'[j])
      ensures Zone(new'[i]) != Zone(new'[j])
    {
      var i', j' := if i < |p| then i else i + 1, if j < |p| then j else j + 1;
      assert old'[i'] == new'[i] && old'[j'] == new'[j];
    }
    forall x | x in new' && Buffered(cfg, x) ensures busy[Zone(x)] { assert x in old'; }
  }

  /** Appending a slot that is not buffered, or whose buffer was free and is now marked. */
  lemma AppendKeeps(cfg: Cfg, busy: seq<bool>, q: seq<Msg>, m: Msg)
    requires Separate(cfg, q) && Marked(cfg, busy, q)
    requires Buffered(cfg, m) ==> !busy[Zone(m)]
    ensures Separate(cfg, q + [m])
    ensures Marked(cfg, if Buffered(cfg, m) then busy[Zone(m) := true] else busy, q + [m])
  {
    forall i, j | 0 <= i < j < |q + [m]| && Buffered(cfg, (q + [m])[i]) && Buffered(cfg, (q + [m])[j])
      ensures Zone((q + [m])[i]) != Zone((q + [m])[j])
    {
      if j == |q| { assert q[i] in q; }
    }
  }

  /** Removing the oldest slot and clearing its mark. */
  lemma PopKeeps(cfg: Cfg, busy: seq<bool>, m: Msg, q: seq<Msg>)
    requires Separate(cfg, [m] + q) && Marked(cfg, busy, [m] + q) && Buffered(cfg, m)
    ensures Separate(cfg, q) && Marked(cfg, busy[Zone(m) := false], q)
  {
    var all := [m] + q;
    forall x | x in q && Buffered(cfg, x) ensures busy[Zone(m) := false][Zone(x)] {
      var i :| 0 <= i < |q| && q[i] == x;
      assert all[0] == m && all[i + 1] == x;
      assert x in all;
    }
    forall i, j | 0 <= i < j < |q| && Buffered(cfg, q[i]) && Buffered(cfg, q[j]) ensures Zone(q[i]) != Zone(q[j]) {
      assert all[i + 1] == q[i] && all[j + 1] == q[j];
    }
  }

  lemma RuStepSafe(cfg: Cfg, s: State, a: Action, s': State)
    requires ValidCfg(cfg) && RingSafe(cfg, s) && Next(cfg, s, a, s')
    requires a.RuSlot? || a.RuPull? || a.RuPush?
    ensures RingSafe(cfg, s')
  {
    match a {
      case RuSlot(m) =>
        if Buffered(cfg, m) && s.busy[Zone(m)] {
          assert InFlight(s') == InFlight(s);
        } else {
          assert InFlight(s') == InFlight(s) + [m];
          AppendKeeps(cfg, s.busy, InFlight(s), m);
        }
      case RuPull =>
        var head, rest := s.rxOut[0], s.rxOut[1..] + Flow(s);
        assert head in s.rxOut;
        assert InFlight(s) == [head] + rest;
        PopKeeps(cfg, s.busy, head, rest);
        if Zone(head) == Zone(s.ru.m) {
          AppendKeeps(cfg, s.busy[Zone(head) := false], rest, s.ru.m);
          assert InFlight(s') == rest + [s.ru.m];
        } else {
          assert InFlight(s') == rest;
        }
      case RuPush =>
        assert InFlight(s') == InFlight(s);
    }
  }

  /** The L1 threads hand slots on in order. */
  lemma MoveKeepsOrder(cfg: Cfg, s: State, a: Action, s': State)
    requires ValidCfg(cfg) && Shape(cfg, s) && Next(cfg, s, a, s')
    requires
      || a.TxPull? || a.RxPull?
      || (a.TxRun? && !Early(cfg, s.txHand[0])) || (a.RxRun? && Receives(cfg, s.rxHand[0]))
    ensures InFlight(s') == InFlight(s)
  {
    match a {
      case TxPull => assert s'.txHand + s'.txOut == s.txHand + s.txOut;
      case TxRun => assert s'.resp + s'.txHand == s.resp + s.txHand;
      case RxPull => assert s'.rxHand + s'.resp == s.rxHand + s.resp;
      case RxRun => assert s'.rxOut + s'.rxHand == s.rxOut + s.rxHand;
    }
    Regroup(s);
    Regroup(s');
  }

  lemma Regroup(s: State)
    ensures var tail := if s.ru.Writing? then [s.ru.m] else [];
      && InFlight(s) == (s.rxOut + s.rxHand) + (s.resp + s.txHand) + s.txOut + tail
      && InFlight(s) == s.rxOut + (s.rxHand + s.resp) + (s.txHand + s.txOut) + tail
  {
  }

  lemma TxDropSafe(cfg: Cfg, s: State, s': State)
    requires ValidCfg(cfg) && RingSafe(cfg, s) && Next(cfg, s, TxRun, s') && Early(cfg, s.txHand[0])
    ensures RingSafe(cfg, s')
  {
    var p, q := s.rxOut + s.rxHand + s.resp, s.txOut + (if s.ru.Writing? then [s.ru.m] else []);
    assert s.txHand == [s.txHand[0]];
    assert InFlight(s) == p + s.txHand + q;
    assert InFlight(s') == p + q;
    DropKeeps(cfg, s.busy, p, s.txHand[0], q);
  }

  lemma RxDropSafe(cfg: Cfg, s: State, s': State)
    requires ValidCfg(cfg) && RingSafe(cfg, s) && Next(cfg, s, RxRun, s') && !Receives(cfg, s.rxHand[0])
    ensures RingSafe(cfg, s')
  {
    var q := s.resp + s.txHand + s.txOut + (if s.ru.Writing? then [s.ru.m] else []);
    assert s.rxHand == [s.rxHand[0]];
    assert InFlight(s) == s.rxOut + s.rxHand + q;
    assert InFlight(s') == s.rxOut + q;
    DropKeeps(cfg, s.busy, s.rxOut, s.rxHand[0], q);
  }

  lemma L1StepSafe(cfg: Cfg, s: State, a: Action, s': State)
    requires ValidCfg(cfg) && RingSafe(cfg, s) && Next(cfg, s, a, s')
    requires a.TxPull? || a.TxRun? || a.RxPull? || a.RxRun?
    ensures RingSafe(cfg, s')
  {
    if a.TxRun? && Early(cfg, s.txHand[0]) {
      TxDropSafe(cfg, s, s');
    } else if a.RxRun? && !Receives(cfg, s.rxHand[0]) {
      RxDropSafe(cfg, s, s');
    } else {
      MoveKeepsOrder(cfg, s, a, s');
    }
  }

  /** Exclusion, in every reachable state: while the radio unit writes the buffer of a slot, no other
      slot anywhere in the pipeline occupies that buffer. */
  lemma WriterExcludesReaders(cfg: Cfg, ss: seq<State>, acts: seq<Action>, m: Msg)
    requires ValidCfg(cfg) && IsRun(cfg, ss, acts)
    requires ss[|ss| - 1].ru.Writing? && Buffered(cfg, m) && m in ss[|ss| - 1].rxOut + Flow(ss[|ss| - 1])
    ensures Zone(m) != Zone(ss[|ss| - 1].ru.m)
  {
    var s := ss[|ss| - 1];
    RunsKeep(cfg, ss, acts);
    var q := s.rxOut + Flow(s);
    var i :| 0 <= i < |q| && q[i] == m;
    assert InFlight(s)[i] == m && InFlight(s)[|q|] == s.ru.m;
  }

  // ---------------------------------------------------------------- deadlock

  /** The radio unit waits for a buffer and no other thread has anything to do. */
  predicate Deadlock(s: State) {
    s.ru.Freeing? && s.rxOut == [] && Flow(s) == []
  }

  /** No step is possible then. */
  lemma DeadlockIsFinal(cfg: Cfg, s: State, a: Action, s': State)
    requires ValidCfg(cfg) && Deadlock(s)
    ensures !Next(cfg, s, a, s')
  {
    assert |Flow(s)| == |s.rxHand| + |s.resp| + |s.txHand| + |s.txOut|;
  }

  // The slots are those of the unit.

  /** What has been pushed are the slots of the first reads, the unit works on that of the next read, and
      every slot in the pipeline has been pushed. */
  ghost predicate Clocked(cfg: Cfg, s: State) {
    && (forall i :: 0 <= i < |s.pushed| ==> s.pushed[i] == cfg.slots(i))
    && (!s.ru.Ready? ==> s.ru.m == cfg.slots(|s.pushed|))
    && (forall m :: m in s.rxOut + Flow(s) ==> m in s.pushed)
  }

  lemma NextClocked(cfg: Cfg, s: State, a: Action, s': State)
    requires ValidCfg(cfg) && Shape(cfg, s) && Clocked(cfg, s) && Next(cfg, s, a, s')
    ensures Clocked(cfg, s') && s.pushed <= s'.pushed
  {
    forall m | m in s'.rxOut + Flow(s') ensures m in s'.pushed {
      Somewhere(s, m);
      Somewhere(s', m);
      assert m in s.rxOut + Flow(s) || m in s.pushed || m == s'.pushed[|s'.pushed| - 1];
    }
  }

  lemma Somewhere(s: State, m: Msg)
    ensures m in s.rxOut + Flow(s) <==>
      m in s.rxOut || m in s.rxHand || m in s.resp || m in s.txHand || m in s.txOut
    ensures m in InFlight(s) <==> m in s.rxOut + Flow(s) || (s.ru.Writing? && m == s.ru.m)
  {
  }

  // Who keeps a busy buffer.

  ghost predicate Holds(cfg: Cfg, q: seq<Msg>, z: nat) {
    exists m :: m in q && Buffered(cfg, m) && Zone(m) == z
  }

  /** The transmit thread drops the slot, and the slot occupies a buffer. */
  ghost predicate Dropped(cfg: Cfg, m: Msg)
    requires ValidCfg(cfg)
  {
    Buffered(cfg, m) && Early(cfg, m)
  }

  ghost predicate Blamed(cfg: Cfg, q: seq<Msg>, z: nat)
    requires ValidCfg(cfg)
  {
    exists m :: m in q && Dropped(cfg, m) && Zone(m) == z
  }

  /** Every busy buffer belongs to a slot in flight, or a slot that occupied it is one that is dropped. */
  ghost predicate Owned(cfg: Cfg, s: State)
    requires ValidCfg(cfg)
  {
    && |s.busy| == DEPTH
    && (forall z :: 0 <= z < DEPTH && s.busy[z] ==> Holds(cfg, InFlight(s), z) || Blamed(cfg, s.pushed, z))
    && (s.ru.Freeing? ==> s.busy[Zone(s.ru.m)])
  }

  /** A slot leaves its buffer only when its report is pulled, or when it is dropped. */
  lemma SlotStays(cfg: Cfg, s: State, a: Action, s': State, m: Msg)
    requires ValidCfg(cfg) && Clocked(cfg, s) && Next(cfg, s, a, s')
    requires m in InFlight(s) && Buffered(cfg, m)
    ensures m in InFlight(s') || (a.RuPull? && m == s.rxOut[0]) || (Dropped(cfg, m) && m in s.pushed)
  {
    Somewhere(s, m);
    if a.RuPull? {
      assert s.rxOut == [s.rxOut[0]] + s.rxOut[1..];
      Somewhere(s', m);
    } else if a.TxRun? || a.RxRun? {
      SlotServed(cfg, s, a, s', m);
    } else {
      Somewhere(s', m);
    }
  }

  lemma SlotServed(cfg: Cfg, s: State, a: Action, s': State, m: Msg)
    requires ValidCfg(cfg) && Next(cfg, s, a, s') && (a.TxRun? || a.RxRun?)
    requires m in InFlight(s) && Buffered(cfg, m)
    ensures m in InFlight(s') || (Dropped(cfg, m) && m in s.rxOut + Flow(s))
  {
    Somewhere(s, m);
    Somewhere(s', m);
  }

  lemma NextOwned(cfg: Cfg, s: State, a: Action, s': State)
    requires ValidCfg(cfg) && Shape(cfg, s) && Clocked(cfg, s) && Owned(cfg, s) && Next(cfg, s, a, s')
    ensures Owned(cfg, s')
  {
    NextClocked(cfg, s, a, s');
    forall z | 0 <= z < DEPTH && s'.busy[z] ensures Holds(cfg, InFlight(s'), z) || Blamed(cfg, s'.pushed, z) {
      BufferOwned(cfg, s, a, s', z);
    }
  }

  lemma BufferOwned(cfg: Cfg, s: State, a: Action, s': State, z: nat)
    requires ValidCfg(cfg) && Shape(cfg, s) && Clocked(cfg, s) && Owned(cfg, s) && Next(cfg, s, a, s')
    requires s.pushed <= s'.pushed && z < DEPTH && s'.busy[z]
    ensures Holds(cfg, InFlight(s'), z) || Blamed(cfg, s'.pushed, z)
  {
    if s'.ru.Writing? && Zone(s'.ru.m) == z && Buffered(cfg, s'.ru.m) {
      Somewhere(s', s'.ru.m);
    } else if Blamed(cfg, s.pushed, z) {
      var m :| m in s.pushed && Dropped(cfg, m) && Zone(m) == z;
      assert m in s'.pushed;
    } else {
      StillBusy(cfg, s, a, s', z);
      var m :| m in InFlight(s) && Buffered(cfg, m) && Zone(m) == z;
      SlotStays(cfg, s, a, s', m);
    }
  }

  /** A busy buffer that the unit is not writing was busy before. */
  lemma StillBusy(cfg: Cfg, s: State, a: Action, s': State, z: nat)
    requires ValidCfg(cfg) && Next(cfg, s, a, s') && z < DEPTH && s'.busy[z]
    requires !(s'.ru.Writing? && Zone(s'.ru.m) == z && Buffered(cfg, s'.ru.m))
    requires s.ru.Freeing? ==> Buffered(cfg, s.ru.m)
    ensures s.busy[z] && !(a.RuPull? && Zone(s.rxOut[0]) == z)
  {
  }

  /** A buffer nobody will free: it is busy, and no slot in flight occupies it. */
  ghost predicate Leaked(cfg: Cfg, s: State, z: nat) {
    z < |s.busy| && s.busy[z] && !Holds(cfg, InFlight(s), z)
  }

  /** Every slot that is to be dropped still waits for the transmit thread, or its buffer is leaked. */
  ghost predicate Leaks(cfg: Cfg, s: State)
    requires ValidCfg(cfg)
  {
    forall m :: m in s.pushed && Dropped(cfg, m) ==> m in s.txHand + s.txOut || Leaked(cfg, s, Zone(m))
  }

  /** A leaked buffer stays so. */
  lemma LeakedStays(cfg: Cfg, s: State, a: Action, s': State, z: nat)
    requires ValidCfg(cfg) && RingSafe(cfg, s) && Next(cfg, s, a, s') && Leaked(cfg, s, z)
    ensures Leaked(cfg, s', z)
  {
    if a.RuPull? {
      Somewhere(s, s.rxOut[0]);
      assert s.rxOut == [s.rxOut[0]] + s.rxOut[1..];
    }
    forall m | m in InFlight(s') && Buffered(cfg, m) && Zone(m) == z ensures m in InFlight(s) {
      Somewhere(s, m);
      Somewhere(s', m);
    }
  }

  /** Dropping a buffered slot leaks its buffer. */
  lemma DropLeaks(cfg: Cfg, s: State, s': State)
    requires ValidCfg(cfg) && RingSafe(cfg, s) && Next(cfg, s, TxRun, s') && Dropped(cfg, s.txHand[0])
    ensures Leaked(cfg, s', Zone(s.txHand[0]))
  {
    var m := s.txHand[0];
    Regroup(s);
    Regroup(s');
    var tail := if s.ru.Writing? then [s.ru.m] else [];
    var p, q := s.rxOut + (s.rxHand + s.resp), s.txOut + tail;
    assert s.txHand == [m];
    assert InFlight(s) == p + [m] + q;
    assert InFlight(s') == p + q;
    Somewhere(s, m);
    Alone(cfg, p, m, q);
  }

  lemma Alone(cfg: Cfg, p: seq<Msg>, m: Msg, q: seq<Msg>)
    requires Separate(cfg, p + [m] + q) && Buffered(cfg, m)
    ensures !Holds(cfg, p + q, Zone(m))
  {
    var all := p + [m] + q;
    assert all[|p|] == m;
    forall x | x in p + q && Buffered(cfg, x) ensures Zone(x) != Zone(m) {
      var i :| 0 <= i < |p + q| && (p + q)[i] == x;
      assert all[if i < |p| then i else i + 1] == x;
    }
  }

  lemma NextLeaks(cfg: Cfg, s: State, a: Action, s': State)
    requires ValidCfg(cfg) && RingSafe(cfg, s) && Leaks(cfg, s) && Next(cfg, s, a, s')
    ensures Leaks(cfg, s')
  {
    forall m | m in s'.pushed && Dropped(cfg, m) ensures m in s'.txHand + s'.txOut || Leaked(cfg, s', Zone(m)) {
      if m !in s.pushed {
        assert m in s'.txOut;
      } else if m !in s.txHand + s.txOut {
        LeakedStays(cfg, s, a, s', Zone(m));
      } else if a.TxRun? && m == s.txHand[0] {
        DropLeaks(cfg, s, s');
      } else if a.TxPull? {
        assert s.txOut == [s.txOut[0]] + s.txOut[1..];
      }
    }
  }

  /** All of it, in every reachable state. */
  ghost predicate Inv(cfg: Cfg, s: State)
    requires ValidCfg(cfg)
  {
    RingSafe(cfg, s) && Clocked(cfg, s) && Owned(cfg, s) && Leaks(cfg, s)
  }

  lemma NextKeeps(cfg: Cfg, s: State, a: Action, s': State)
    requires ValidCfg(cfg) && Inv(cfg, s) && Next(cfg, s, a, s')
    ensures Inv(cfg, s')
  {
    if a.RuSlot? || a.RuPull? || a.RuPush? {
      RuStepSafe(cfg, s, a, s');
    } else {
      L1StepSafe(cfg, s, a, s');
    }
    NextClocked(cfg, s, a, s');
    NextOwned(cfg, s, a, s');
    NextLeaks(cfg, s, a, s');
  }

  lemma InitKeeps(cfg: Cfg, s: State)
    requires ValidCfg(cfg) && Init(s)
    ensures Inv(cfg, s)
  {
    assert InFlight(s) == [];
  }

  lemma {:induction false} RunsKeep(cfg: Cfg, ss: seq<State>, acts: seq<Action>)
    requires ValidCfg(cfg) && IsRun(cfg, ss, acts)
    ensures Inv(cfg, ss[|ss| - 1])
    decreases |acts|
  {
    if acts == [] {
      InitKeeps(cfg, ss[0]);
    } else {
      var k := |acts| - 1;
      assert IsRun(cfg, ss[..k + 1], acts[..k]);
      RunsKeep(cfg, ss[..k + 1], acts[..k]);
      assert ss[..k + 1][k] == ss[k];
      NextKeeps(cfg, ss[k], acts[k], ss[k + 1]);
    }
  }

  lemma ReachableKeeps(cfg: Cfg, s: State)
    requires ValidCfg(cfg) && Reachable(cfg, s)
    ensures Inv(cfg, s)
  {
    var ss, acts :| IsRun(cfg, ss, acts) && s == ss[|ss| - 1];
    RunsKeep(cfg, ss, acts);
  }

  lemma Extend(cfg: Cfg, s: State, a: Action, s': State)
    requires ValidCfg(cfg) && Reachable(cfg, s) && Next(cfg, s, a, s')
    ensures Reachable(cfg, s')
  {
    var ss, acts :| IsRun(cfg, ss, acts) && s == ss[|ss| - 1];
    assert IsRun(cfg, ss + [s'], acts + [a]);
  }

  // The unit run against threads that always finish first.

  /** The L1 threads finish what is in flight. */
  lemma {:induction false} Settle(cfg: Cfg, s: State) returns (t: State)
    requires ValidCfg(cfg) && Reachable(cfg, s)
    ensures Reachable(cfg, t) && Flow(t) == [] && t.ru == s.ru && t.busy == s.busy && t.pushed == s.pushed
    decreases Work(s)
  {
    if Flow(s) == [] {
      t := s;
    } else {
      ReachableKeeps(cfg, s);
      var a, s' := L1CanStep(cfg, s);
      Extend(cfg, s, a, s');
      Drains(cfg, s, a, s');
      t := Settle(cfg, s');
    }
  }

  /** The unit pulls reports until its buffer is free, or there are none. */
  lemma {:induction false} PullAll(cfg: Cfg, s: State) returns (t: State)
    requires ValidCfg(cfg) && Reachable(cfg, s) && s.ru.Freeing? && Flow(s) == []
    ensures Reachable(cfg, t) && Flow(t) == [] && t.pushed == s.pushed
    ensures Deadlock(t) || t.ru == Writing(s.ru.m)
    decreases |s.rxOut|
  {
    if s.rxOut == [] {
      t := s;
    } else {
      ReachableKeeps(cfg, s);
      var z := Zone(s.rxOut[0]);
      var u := s.(rxOut := s.rxOut[1..], busy := s.busy[z := false]);
      t := if z == Zone(s.ru.m) then u.(ru := Writing(s.ru.m), busy := u.busy[z := true]) else u;
      Extend(cfg, s, RuPull, t);
      if z != Zone(s.ru.m) {
        t := PullAll(cfg, t);
      }
    }
  }

  /** A moment at which the unit has done the slots before read `n` and nothing is in flight. */
  ghost predicate Quiet(cfg: Cfg, s: State, n: nat)
    requires ValidCfg(cfg)
  {
    Reachable(cfg, s) && s.ru == Ready && Flow(s) == [] && |s.pushed| == n
  }

  lemma PushAndSettle(cfg: Cfg, s: State) returns (t: State)
    requires ValidCfg(cfg) && Reachable(cfg, s) && s.ru.Writing?
    ensures Quiet(cfg, t, |s.pushed| + 1)
  {
    ReachableKeeps(cfg, s);
    Extend(cfg, s, RuPush, Push(s, s.ru.m));
    t := Settle(cfg, Push(s, s.ru.m));
  }

  /** The unit takes the slot of read `n`, and waits for its buffer if it is busy. */
  lemma TakeSlot(cfg: Cfg, s: State, n: nat) returns (t: State)
    requires ValidCfg(cfg) && Quiet(cfg, s, n) && Buffered(cfg, cfg.slots(n))
    ensures Reachable(cfg, t) && Flow(t) == [] && t.pushed == s.pushed
    ensures |s.busy| == DEPTH
    ensures t.ru == if s.busy[Zone(cfg.slots(n))] then Freeing(cfg.slots(n)) else Writing(cfg.slots(n))
  {
    ReachableKeeps(cfg, s);
    var m := cfg.slots(n);
    t := if s.busy[Zone(m)] then s.(ru := Freeing(m)) else s.(ru := Writing(m), busy := s.busy[Zone(m) := true]);
    Extend(cfg, s, RuSlot(m), t);
  }

  lemma SlotTurn(cfg: Cfg, s: State, n: nat) returns (t: State)
    requires ValidCfg(cfg) && Quiet(cfg, s, n)
    ensures Reachable(cfg, t) && (Deadlock(t) || Quiet(cfg, t, n + 1))
  {
    ReachableKeeps(cfg, s);
    var m := cfg.slots(n);
    if !Buffered(cfg, m) {
      Extend(cfg, s, RuSlot(m), Push(s, m));
      t := Settle(cfg, Push(s, m));
    } else {
      t := TakeSlot(cfg, s, n);
      if t.ru.Freeing? {
        t := PullAll(cfg, t);
      }
      if !Deadlock(t) {
        t := PushAndSettle(cfg, t);
      }
    }
  }

  lemma {:induction false} AdvanceTo(cfg: Cfg, n: nat) returns (t: State)
    requires ValidCfg(cfg)
    ensures Reachable(cfg, t) && (Deadlock(t) || Quiet(cfg, t, n))
    decreases n
  {
    if n == 0 {
      t := State(Ready, [false, false, false, false], [], [], [], [], [], [], []);
      assert IsRun(cfg, [t], []);
    } else {
      t := AdvanceTo(cfg, n - 1);
      if !Deadlock(t) {
        t := SlotTurn(cfg, t, n - 1);
      }
    }
  }

  // When the pipeline can deadlock.

  /** The slot of read `i` is dropped with its buffer, and that of the later read `j` needs the buffer. */
  ghost predicate Stall(cfg: Cfg, i: nat, j: nat)
    requires ValidCfg(cfg)
  {
    && i < j
    && Dropped(cfg, cfg.slots(i)) && Buffered(cfg, cfg.slots(j))
    && Zone(cfg.slots(i)) == Zone(cfg.slots(j))
  }

  lemma StallDeadlocks(cfg: Cfg, i: nat, j: nat) returns (t: State)
    requires ValidCfg(cfg) && Stall(cfg, i, j)
    ensures Reachable(cfg, t) && Deadlock(t)
  {
    t := AdvanceTo(cfg, j);
    if !Deadlock(t) {
      BufferLeaked(cfg, t, i);
      t := TakeSlot(cfg, t, j);
      t := PullAll(cfg, t);
      if !Deadlock(t) {
        BufferLeaked(cfg, t, i);
        Somewhere(t, t.ru.m);
        assert false;
      }
    }
  }

  /** Once nothing is in flight, a dropped slot has left its buffer leaked. */
  lemma BufferLeaked(cfg: Cfg, s: State, i: nat)
    requires ValidCfg(cfg) && Reachable(cfg, s) && Flow(s) == []
    requires i < |s.pushed| && Dropped(cfg, cfg.slots(i))
    ensures Leaked(cfg, s, Zone(cfg.slots(i)))
  {
    ReachableKeeps(cfg, s);
    assert s.pushed[i] == cfg.slots(i);
    Somewhere(s, cfg.slots(i));
  }

  /** A unit that waits with nothing in flight waits for the buffer of a dropped slot. */
  lemma WaitsForDropped(cfg: Cfg, s: State) returns (k: nat)
    requires ValidCfg(cfg) && Owned(cfg, s) && Deadlock(s)
    ensures k < |s.pushed| && Dropped(cfg, s.pushed[k]) && Zone(s.pushed[k]) == Zone(s.ru.m)
  {
    var z := Zone(s.ru.m);
    assert InFlight(s) == [];
    assert Blamed(cfg, s.pushed, z);
    var m :| m in s.pushed && Dropped(cfg, m) && Zone(m) == z;
    k :| 0 <= k < |s.pushed| && s.pushed[k] == m;
  }

  lemma DeadlockStalls(cfg: Cfg, s: State) returns (i: nat, j: nat)
    requires ValidCfg(cfg) && Reachable(cfg, s) && Deadlock(s)
    ensures Stall(cfg, i, j)
  {
    ReachableKeeps(cfg, s);
    var k := WaitsForDropped(cfg, s);
    i, j := k, |s.pushed|;
    assert s.pushed[k] == cfg.slots(i) && s.ru.m == cfg.slots(j);
  }

  /** The pipeline can deadlock exactly when the unit's own clock makes it drop a slot whose buffer a later
      slot needs. */
  lemma DeadlockIff(cfg: Cfg)
    requires ValidCfg(cfg)
    ensures (exists s :: Reachable(cfg, s) && Deadlock(s)) <==> (exists i: nat, j: nat :: Stall(cfg, i, j))
  {
    if s :| Reachable(cfg, s) && Deadlock(s) {
      var i, j := DeadlockStalls(cfg, s);
    }
    if i: nat, j: nat :| Stall(cfg, i, j) {
      var s := StallDeadlocks(cfg, i, j);
    }
  }
}
