/** The blocking hand-off from the L1 receive thread to the L1 transmit thread: `wakeup_tx` waits until
    the single slot is free, fills it and signals; `L1_thread_tx` waits until it is filled, works on it
    and signals.  Both wait on one condition variable.  Each lock region is one step; the machine has
    any number of producers, the program has one. */
module TxMailbox {
  import opened FrameParms
  import opened L1Payload
  import opened Options

  /** `Checking` contends for the mutex, `Waiting` sleeps on the condition variable, `Working` has left
      `wait_on_condition`. */
  datatype Consumer = Checking | Waiting | Working

  datatype Producer = Idle | Entering(x: Payload) | Blocked(x: Payload)

  datatype State = State(
    cnt: int,
    slot: Payload,
    consumer: Consumer,
    started: Payload,
    producers: seq<Producer>,
    offered: seq<Payload>,
    submitted: seq<Payload>,
    done: seq<Payload>)

  datatype Who = TheConsumer | TheProducer(p: nat)

  /** `wake` is the thread a signal wakes. */
  datatype Action =
    | Call(p: nat, x: Payload)
    | Enter(p: nat, wake: Option<Who>)
    | Check
    | Complete(wake: Option<Who>)
    | Spurious(who: Who)

  predicate IsWaiting(s: State, who: Who) {
    match who
    case TheConsumer => s.consumer == Waiting
    case TheProducer(p) => p < |s.producers| && s.producers[p].Blocked?
  }

  /** A thread that leaves the condition variable checks its condition again. */
  function Awaken(s: State, who: Who): State
    requires IsWaiting(s, who)
  {
    match who
    case TheConsumer => s.(consumer := Checking)
    case TheProducer(p) => s.(producers := s.producers[p := Entering(s.producers[p].x)])
  }

  /** `pthread_cond_signal` wakes one waiting thread, if there is one; spurious wake-ups are steps of
      their own. */
  ghost predicate Signals(s: State, wake: Option<Who>, s': State) {
    match wake
    case None => s' == s && forall w :: !IsWaiting(s, w)
    case Some(w) => IsWaiting(s, w) && s' == Awaken(s, w)
  }

  function Deposit(s: State, p: nat, x: Payload): State
    requires p < |s.producers|
  {
    s.(cnt := 0, slot := x, submitted := s.submitted + [x], producers := s.producers[p := Idle])
  }

  function Finish(s: State): State {
    s.(cnt := -1, done := s.done + [s.slot], consumer := Checking)
  }

  ghost predicate Next(fp: Parms, s: State, a: Action, s': State)
    requires Valid(fp)
  {
    match a
    case Call(p, x) =>
      && p < |s.producers| && s.producers[p].Idle?
      && s' == s.(offered := s.offered + [x],
                  producers := if IsUplink(fp, x) then s.producers else s.producers[p := Entering(x)])
    case Enter(p, wake) =>
      && p < |s.producers| && s.producers[p].Entering?
      && (if s.cnt == 0 then s' == s.(producers := s.producers[p := Blocked(s.producers[p].x)])
          else Signals(Deposit(s, p, s.producers[p].x), wake, s'))
    case Check =>
      && s.consumer == Checking
      && s' == (if s.cnt < 0 then s.(consumer := Waiting) else s.(consumer := Working, started := s.slot))
    case Complete(wake) =>
      s.consumer == Working && Signals(Finish(s), wake, s')
    case Spurious(w) =>
      IsWaiting(s, w) && s' == Awaken(s, w)
  }

  /** A signal always has an outcome, so the lock regions are always steps. */
  lemma SignalEnabled(s: State) returns (wake: Option<Who>, s': State)
    ensures Signals(s, wake, s')
  {
    if w :| IsWaiting(s, w) {
      wake, s' := Some(w), Awaken(s, w);
    } else {
      wake, s' := None, s;
    }
  }

  lemma EnterEnabled(fp: Parms, s: State, p: nat) returns (wake: Option<Who>, s': State)
    requires Valid(fp) && p < |s.producers| && s.producers[p].Entering?
    ensures Next(fp, s, Enter(p, wake), s')
  {
    if s.cnt == 0 {
      wake, s' := None, s.(producers := s.producers[p := Blocked(s.producers[p].x)]);
    } else {
      wake, s' := SignalEnabled(Deposit(s, p, s.producers[p].x));
    }
  }

  ghost predicate Init(s: State, n: nat) {
    && s.cnt == -1 && s.consumer == Checking && |s.producers| == n
    && (forall p :: 0 <= p < n ==> s.producers[p].Idle?)
    && s.offered == [] && s.submitted == [] && s.done == []
  }

  /** A run of the machine with `n` producers. */
  ghost predicate IsRun(fp: Parms, n: nat, ss: seq<State>, acts: seq<Action>)
    requires Valid(fp)
  {
    && |ss| == |acts| + 1 && Init(ss[0], n)
    && forall i :: 0 <= i < |acts| ==> Next(fp, ss[i], acts[i], ss[i + 1])
  }

  ghost predicate Reachable(fp: Parms, n: nat, s: State)
    requires Valid(fp)
  {
    exists ss, acts :: IsRun(fp, n, ss, acts) && s == ss[|ss| - 1]
  }

  // ---------------------------------------------------------------- the lock regions

  /** `wakeup_tx` returns at once for an uplink subframe, sleeps while the slot is pending, or fills it. */
  datatype Entry = Skipped | Sleeps | Deposited

  class L1ProcTx {
    var instanceCnt: int
    var timestampTx: int
    var frameRx: nat
    var subframeRx: nat
    var frameTx: nat
    var subframeTx: nat

    function Slot(): Payload
      reads this
    {
      Payload(frameRx, subframeRx, frameTx, subframeTx, timestampTx)
    }

    /** The fields are those of the machine's state. */
    ghost predicate Agrees(s: State)
      reads this
    {
      s.cnt == instanceCnt && s.slot == Slot()
    }

    constructor()
      ensures instanceCnt == -1
    {
      instanceCnt, timestampTx, frameRx, subframeRx, frameTx, subframeTx := -1, 0, 0, 0, 0, 0;
    }

    /** One pass of `wakeup_tx` through its lock region; every pass is a step of the machine. */
    method WakeupTx(fp: Parms, x: Payload) returns (r: Entry)
      requires Valid(fp)
      modifies this
      ensures r == Skipped <==> fp.duplex == TDD && fp.pattern[x.subframeTx % 10] == UL
      ensures r == Skipped <==> IsUplink(fp, x)
      ensures r != Skipped ==> r == if old(instanceCnt) == 0 then Sleeps else Deposited
      ensures r == Deposited ==> instanceCnt == 0 && Slot() == x
      ensures r != Deposited ==> instanceCnt == old(instanceCnt) && Slot() == old(Slot())
      ensures forall s, p: nat, wake, s' ::
        (old(Agrees(s)) && Next(fp, s, Enter(p, wake), s') && s.producers[p] == Entering(x) && r != Skipped) ==>
        (&& Agrees(s')
         && (r == Sleeps <==> s'.producers[p].Blocked?)
         && s'.submitted == if r == Deposited then s.submitted + [x] else s.submitted)
      ensures forall s: State, p: nat :: p < |s.producers| && s.producers[p] == Entering(x) ==>
        exists wake, s' :: Next(fp, s, Enter(p, wake), s')
    {
      forall s: State, p: nat | p < |s.producers| && s.producers[p] == Entering(x)
        ensures exists wake, s' :: Next(fp, s, Enter(p, wake), s')
      {
        var wake, s' := EnterEnabled(fp, s, p);
      }
      if SubframeSelect(fp, SfOf(x.subframeTx)) == UL { return Skipped; }
      if instanceCnt == 0 { return Sleeps; }
      instanceCnt := 0;
      subframeRx := x.subframeRx;
      frameRx := x.frameRx;
      subframeTx := x.subframeTx;
      frameTx := x.frameTx;
      timestampTx := x.timestampTx;
      return Deposited;
    }

    /** The end of a turn of `L1_thread_tx`: what it goes on to report is what it reads under the lock. */
    method Complete(fp: Parms) returns (x: Payload)
      requires Valid(fp)
      modifies this`instanceCnt
      ensures instanceCnt == -1 && x == Slot() == old(Slot())
      ensures forall s, wake, s' :: old(Agrees(s)) && Next(fp, s, Action.Complete(wake), s') ==>
        Agrees(s') && s'.done == s.done + [x]
      ensures forall s: State :: s.consumer == Working ==> exists wake, s' :: Next(fp, s, Action.Complete(wake), s')
    {
      forall s: State | s.consumer == Working ensures exists wake, s' :: Next(fp, s, Action.Complete(wake), s') {
        var wake, s' := SignalEnabled(Finish(s));
        assert Next(fp, s, Action.Complete(wake), s');
      }
      x := Slot();
      instanceCnt := -1;
    }
  }

  // ---------------------------------------------------------------- safety, for any number of producers

  /** The slot protocol: the counter says whether the slot is pending, what was submitted is what has
      been completed plus the pending slot, and the slot does not change under the consumer. */
  ghost predicate Safe(s: State, n: nat) {
    && |s.producers| == n
    && (s.cnt == -1 || s.cnt == 0)
    && s.submitted == s.done + (if s.cnt == 0 then [s.slot] else [])
    && (s.consumer == Working ==> s.cnt == 0 && s.slot == s.started)
  }

  lemma NextSafe(fp: Parms, s: State, a: Action, s': State, n: nat)
    requires Valid(fp) && Safe(s, n) && Next(fp, s, a, s')
    ensures Safe(s', n)
    ensures s.cnt == 0 && s'.cnt == 0 ==> s'.slot == s.slot
  {
  }

  /** Safety in every reachable state. */
  lemma {:induction false} RunsAreSafe(fp: Parms, n: nat, ss: seq<State>, acts: seq<Action>)
    requires Valid(fp) && IsRun(fp, n, ss, acts)
    ensures Safe(ss[|ss| - 1], n)
    decreases |acts|
  {
    if acts != [] {
      var k := |acts| - 1;
      assert IsRun(fp, n, ss[..k + 1], acts[..k]);
      RunsAreSafe(fp, n, ss[..k + 1], acts[..k]);
      assert ss[..k + 1][k] == ss[k];
      NextSafe(fp, ss[k], acts[k], ss[k + 1], n);
    }
  }

  // ---------------------------------------------------------------- one producer

  /** What the producer holds but has not submitted. */
  function InHand(p: Producer): seq<Payload> {
    match p
    case Idle => []
    case Entering(x) => [x]
    case Blocked(x) => [x]
  }

  /** With one producer, each side waits only while the slot is in the other's hands, and every
      transmission asked for is completed, pending or in hand, in order. */
  ghost predicate Exact(fp: Parms, s: State)
    requires Valid(fp)
  {
    && Safe(s, 1)
    && (s.consumer == Waiting ==> s.cnt == -1)
    && (s.producers[0].Blocked? ==> s.cnt == 0)
    && NonUplink(fp, s.offered) == s.submitted + InHand(s.producers[0])
  }

  lemma EnterExact(fp: Parms, s: State, a: Action, s': State)
    requires Valid(fp) && Exact(fp, s) && a.Enter? && Next(fp, s, a, s')
    ensures Exact(fp, s')
  {
    NextSafe(fp, s, a, s', 1);
    if s.cnt != 0 {
      var t := Deposit(s, 0, s.producers[0].x);
      assert s.consumer == Waiting ==> IsWaiting(t, TheConsumer);
      assert forall p :: !IsWaiting(t, TheProducer(p));
    }
  }

  lemma CompleteExact(fp: Parms, s: State, a: Action, s': State)
    requires Valid(fp) && Exact(fp, s) && a.Complete? && Next(fp, s, a, s')
    ensures Exact(fp, s')
  {
    NextSafe(fp, s, a, s', 1);
    assert s.producers[0].Blocked? ==> IsWaiting(Finish(s), TheProducer(0));
    assert !IsWaiting(Finish(s), TheConsumer);
  }

  lemma CallExact(fp: Parms, s: State, a: Action, s': State)
    requires Valid(fp) && Exact(fp, s) && a.Call? && Next(fp, s, a, s')
    ensures Exact(fp, s')
  {
    NonUplinkSnoc(fp, s.offered, a.x);
  }

  lemma WakeExact(fp: Parms, s: State, a: Action, s': State)
    requires Valid(fp) && Exact(fp, s) && (a.Check? || a.Spurious?) && Next(fp, s, a, s')
    ensures Exact(fp, s')
  {
    NextSafe(fp, s, a, s', 1);
  }

  lemma NextExact(fp: Parms, s: State, a: Action, s': State)
    requires Valid(fp) && Exact(fp, s) && Next(fp, s, a, s')
    ensures Exact(fp, s')
  {
    match a {
      case Call(p, x) => CallExact(fp, s, a, s');
      case Enter(p, wake) => EnterExact(fp, s, a, s');
      case Check => WakeExact(fp, s, a, s');
      case Complete(wake) => CompleteExact(fp, s, a, s');
      case Spurious(w) => WakeExact(fp, s, a, s');
    }
  }

  /** In every reachable state; so the two sides never wait for each other. */
  lemma {:induction false} RunsAreExact(fp: Parms, ss: seq<State>, acts: seq<Action>)
    requires Valid(fp) && IsRun(fp, 1, ss, acts)
    ensures Exact(fp, ss[|ss| - 1])
    ensures !(ss[|ss| - 1].consumer == Waiting && ss[|ss| - 1].producers[0].Blocked?)
    decreases |acts|
  {
    if acts != [] {
      var k := |acts| - 1;
      assert IsRun(fp, 1, ss[..k + 1], acts[..k]);
      RunsAreExact(fp, ss[..k + 1], acts[..k]);
      assert ss[..k + 1][k] == ss[k];
      NextExact(fp, ss[k], acts[k], ss[k + 1]);
    }
  }

  /** Over every run with one producer, the transmissions that are completed, pending or in hand are those asked
      for, each as often as it was, without those whose transmit subframe the TDD pattern has as uplink; in FDD they
      are all of them, in order. */
  lemma NothingElseSkipped(fp: Parms, ss: seq<State>, acts: seq<Action>, x: Payload)
    requires Valid(fp) && IsRun(fp, 1, ss, acts)
    ensures var s := ss[|ss| - 1];
      && |s.producers| == 1
      && var taken := s.done + (if s.cnt == 0 then [s.slot] else []) + InHand(s.producers[0]);
      && (fp.duplex == FDD ==> taken == s.offered)
      && multiset(taken)[x] ==
           if fp.duplex == TDD && fp.pattern[x.subframeTx % 10] == UL then 0 else multiset(s.offered)[x]
  {
    RunsAreExact(fp, ss, acts);
    NonUplinkCounts(fp, ss[|ss| - 1].offered, x);
    if fp.duplex == FDD { FddAll(fp, ss[|ss| - 1].offered); }
  }

  // ---------------------------------------------------------------- lost wake-ups

  /** The slot is pending and the consumer sleeps. */
  predicate Stuck(s: State) {
    s.cnt == 0 && s.consumer == Waiting
  }

  /** No step but a spurious wake-up ever leaves this state. */
  lemma StuckForever(fp: Parms, s: State, a: Action, s': State)
    requires Valid(fp) && Stuck(s) && Next(fp, s, a, s') && !a.Spurious?
    ensures Stuck(s') && s'.done == s.done
  {
  }

  lemma Extend(fp: Parms, n: nat, s: State, a: Action, s': State)
    requires Valid(fp) && Reachable(fp, n, s) && Next(fp, s, a, s')
    ensures Reachable(fp, n, s')
  {
    var ss, acts :| IsRun(fp, n, ss, acts) && s == ss[|ss| - 1];
    assert IsRun(fp, n, ss + [s'], acts + [a]);
  }

  /** With two producers the signal meant for the consumer can wake the other producer. */
  lemma TwoProducersStick(fp: Parms, n: nat, x: Payload) returns (s: State)
    requires Valid(fp) && n >= 2 && !IsUplink(fp, x)
    ensures Reachable(fp, n, s) && Stuck(s)
  {
    s := BothBlock(fp, n, x);
    // the consumer completes it, wakes producer 0 and goes to sleep
    s := Do(fp, n, s, Check, s.(consumer := Working, started := s.slot));
    s := Do(fp, n, s, Complete(Some(TheProducer(0))), Awaken(Finish(s), TheProducer(0)));
    s := Do(fp, n, s, Check, s.(consumer := Waiting));
    // producer 0 deposits and its signal wakes producer 1
    s := Do(fp, n, s, Enter(0, Some(TheProducer(1))), Awaken(Deposit(s, 0, x), TheProducer(1)));
  }

  /** Two producers can be blocked behind a pending slot that the consumer has yet to look at. */
  lemma BothBlock(fp: Parms, n: nat, x: Payload) returns (s: State)
    requires Valid(fp) && n >= 2 && !IsUplink(fp, x)
    ensures Reachable(fp, n, s) && s.cnt == 0 && s.consumer == Checking && s.slot == x
    ensures |s.producers| == n && s.producers[0] == Blocked(x) && s.producers[1] == Blocked(x)
  {
    s := State(-1, x, Checking, x, seq(n, _ => Idle), [], [], []);
    assert IsRun(fp, n, [s], []);
    s := Do(fp, n, s, Call(0, x), s.(offered := [x], producers := s.producers[0 := Entering(x)]));
    assert !exists w :: IsWaiting(Deposit(s, 0, x), w);
    s := Do(fp, n, s, Enter(0, None), Deposit(s, 0, x));
    s := Do(fp, n, s, Call(0, x), s.(offered := s.offered + [x], producers := s.producers[0 := Entering(x)]));
    s := Do(fp, n, s, Enter(0, None), s.(producers := s.producers[0 := Blocked(x)]));
    s := Do(fp, n, s, Call(1, x), s.(offered := s.offered + [x], producers := s.producers[1 := Entering(x)]));
    s := Do(fp, n, s, Enter(1, None), s.(producers := s.producers[1 := Blocked(x)]));
  }

  lemma Do(fp: Parms, n: nat, s: State, a: Action, t: State) returns (s': State)
    requires Valid(fp) && Reachable(fp, n, s) && Next(fp, s, a, t)
    ensures s' == t && Reachable(fp, n, s')
  {
    Extend(fp, n, s, a, t);
    s' := t;
  }

  /** Wake-ups are never lost exactly with at most one producer (if anything is transmitted at all). */
  lemma NeverStuckIff(fp: Parms, n: nat, x: Payload)
    requires Valid(fp) && !IsUplink(fp, x)
    ensures (forall s :: Reachable(fp, n, s) ==> !Stuck(s)) <==> n <= 1
  {
    if n >= 2 {
      var s := TwoProducersStick(fp, n, x);
    } else {
      forall s | Reachable(fp, n, s) ensures !Stuck(s) {
        var ss, acts :| IsRun(fp, n, ss, acts) && s == ss[|ss| - 1];
        if n == 1 {
          RunsAreExact(fp, ss, acts);
        } else {
          NoProducerIdles(fp, ss, acts);
        }
      }
    }
  }

  lemma {:induction false} NoProducerIdles(fp: Parms, ss: seq<State>, acts: seq<Action>)
    requires Valid(fp) && IsRun(fp, 0, ss, acts)
    ensures ss[|ss| - 1].cnt == -1 && ss[|ss| - 1].producers == [] && ss[|ss| - 1].consumer != Working
    decreases |acts|
  {
    if acts != [] {
      var k := |acts| - 1;
      assert IsRun(fp, 0, ss[..k + 1], acts[..k]);
      NoProducerIdles(fp, ss[..k + 1], acts[..k]);
      assert ss[..k + 1][k] == ss[k];
      assert Next(fp, ss[k], acts[k], ss[k + 1]);
    }
  }
}
