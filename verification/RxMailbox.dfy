/** The hand-off from the radio units to the L1 receive thread: `wakeup_rxtx` drops a subframe while the
    thread is busy; `L1_thread` serves the slot, releases it, and only then reads the slot again to hand
    the subframe on to the transmit side. */
module RxMailbox {
  import opened FrameParms
  import opened L1Payload
  import opened Timing

  // ---------------------------------------------------------------- the lock regions

  /** The payload `wakeup_rxtx` and `eNB_top` compute from the unit's reception timing. */
  function PayloadOf(timestampRx: int, frameRx: nat, ttiRx: nat, ahead: nat, spt: nat): Payload {
    Payload(frameRx, ttiRx, TxOf(frameRx, ttiRx, ahead).0, TxOf(frameRx, ttiRx, ahead).1, timestampRx + ahead * spt)
  }

  /** The payload of subframe `q`, for every reception timestamp in it and every lead of at most ten subframes: the
      transmit timestamp lies `ahead` subframes later, and the transmit frame and subframe are its quotients. */
  lemma PayloadNames(q: nat, r: nat, ahead: nat, spt: nat)
    requires r < spt && ahead <= 10
    ensures var x := PayloadOf(q * spt + r, FrameOf(q), SfOf(q), ahead, spt);
      && x.frameRx == FrameOf(q) && x.subframeRx == SfOf(q)
      && x.timestampTx == (q + ahead) * spt + r
      && x.frameTx == FrameOfStamp(x.timestampTx, spt) == FrameOf(q + ahead)
      && x.subframeTx == TtiOfStamp(x.timestampTx, spt) == SfOf(q + ahead)
  {
    StampNames(q, r, spt);
    StampNames(q + ahead, r, spt);
    ShortLead(q, ahead);
    Distribute(q, ahead, spt);
  }

  /** The same on the timestamp itself. */
  lemma PayloadOfStamp(t: nat, ahead: nat, spt: nat)
    requires spt > 0 && ahead <= 10
    ensures TtiOfStamp(t, spt) >= 0
    ensures var x := PayloadOf(t, FrameOfStamp(t, spt), TtiOfStamp(t, spt), ahead, spt);
      && x.timestampTx == t + ahead * spt
      && x.frameTx == FrameOfStamp(x.timestampTx, spt) && x.subframeTx == TtiOfStamp(x.timestampTx, spt)
  {
    var q, r := Split(t, spt);
    StampNames(q, r, spt);
    PayloadNames(q, r, ahead, spt);
    Distribute(q, ahead, spt);
  }

  class L1Proc {
    var instanceCnt: int
    var timestampTx: int
    var frameRx: nat
    var subframeRx: nat
    var frameTx: nat
    var subframeTx: nat

    function Slot(): Payload
      reads this
    {
      Payload(frameRx, subframeRx, frameTx, subframeTx, timestampTx)
    }

    constructor()
      ensures instanceCnt == -1
    {
      instanceCnt, timestampTx, frameRx, subframeRx, frameTx, subframeTx := -1, 0, 0, 0, 0, 0;
    }

    /** The fields are those of the machine's state. */
    ghost predicate Agrees(s: State)
      reads this
    {
      s.cnt == instanceCnt && s.slot == Slot()
    }

    /** `wakeup_rxtx`: while the counter is 0 the subframe is dropped and nothing changes. */
    method WakeupRxtx(timestampRx: int, ruFrameRx: nat, ruTtiRx: nat, ahead: nat, spt: nat) returns (accepted: bool)
      requires instanceCnt == -1 || instanceCnt == 0
      modifies this
      ensures instanceCnt == 0
      ensures accepted == (old(instanceCnt) == -1)
      ensures Slot() == if accepted then PayloadOf(timestampRx, ruFrameRx, ruTtiRx, ahead, spt) else old(Slot())
      ensures accepted ==>
        timestampTx == timestampRx + ahead * spt && frameRx == ruFrameRx && subframeRx == ruTtiRx
      ensures accepted && timestampRx >= 0 && spt > 0 && ahead <= 10 ==>
        ruFrameRx == FrameOfStamp(timestampRx, spt) && ruTtiRx == TtiOfStamp(timestampRx, spt) ==>
          frameTx == FrameOfStamp(timestampTx, spt) && subframeTx == TtiOfStamp(timestampTx, spt)
      ensures forall s, s' ::
        old(Agrees(s)) && Next(s, Offer(PayloadOf(timestampRx, ruFrameRx, ruTtiRx, ahead, spt)), s') ==>
        Agrees(s') && (accepted <==> s'.dropped == s.dropped)
      ensures forall s: State :: Enabled(s, Offer(PayloadOf(timestampRx, ruFrameRx, ruTtiRx, ahead, spt)))
    {
      AlwaysEnabled(PayloadOf(timestampRx, ruFrameRx, ruTtiRx, ahead, spt));
      if instanceCnt == 0 { return false; }
      instanceCnt := instanceCnt + 1;
      timestampTx := timestampRx + ahead * spt;
      frameRx := ruFrameRx;
      subframeRx := ruTtiRx;
      frameTx := if subframeRx > 9 - ahead then And1023(frameRx + 1) else frameRx;
      subframeTx := (subframeRx + ahead) % 10;
      if timestampRx >= 0 && spt > 0 && ahead <= 10 { PayloadOfStamp(timestampRx, ahead, spt); }
      return true;
    }

    /** `release_thread`. */
    method Release()
      modifies this`instanceCnt
      ensures instanceCnt == -1
      ensures forall s, s' :: old(Agrees(s)) && Next(s, Finish, s') ==> Agrees(s')
      ensures forall s: State :: s.thread == Serving ==> Enabled(s, Finish)
    {
      forall s: State | s.thread == Serving ensures Enabled(s, Finish) {
        assert Next(s, Finish, s.(cnt := -1, thread := Released, served := s.served + [s.started], loaded := {}));
      }
      instanceCnt := -1;
    }
  }

  // ---------------------------------------------------------------- the machine

  /** `Released` is the L1 thread between `release_thread` and its call of `wakeup_tx`. */
  datatype Thread = Checking | Waiting | Serving | Released

  datatype Field = FrameRx | SubframeRx | FrameTx | SubframeTx | TimestampTx

  function FieldOf(x: Payload, f: Field): int {
    match f
    case FrameRx => x.frameRx
    case SubframeRx => x.subframeRx
    case FrameTx => x.frameTx
    case SubframeTx => x.subframeTx
    case TimestampTx => x.timestampTx
  }

  /** `x` with field `f` taken from `y`. */
  function Copy(x: Payload, y: Payload, f: Field): (z: Payload)
    ensures FieldOf(z, f) == FieldOf(y, f) && forall g :: g != f ==> FieldOf(z, g) == FieldOf(x, g)
  {
    match f
    case FrameRx => x.(frameRx := y.frameRx)
    case SubframeRx => x.(subframeRx := y.subframeRx)
    case FrameTx => x.(frameTx := y.frameTx)
    case SubframeTx => x.(subframeTx := y.subframeTx)
    case TimestampTx => x.(timestampTx := y.timestampTx)
  }

  const ALL_FIELDS := {FrameRx, SubframeRx, FrameTx, SubframeTx, TimestampTx}

  lemma EveryField(f: Field)
    ensures f in ALL_FIELDS
  {
    match f {
      case FrameRx =>
      case SubframeRx =>
      case FrameTx =>
      case SubframeTx =>
      case TimestampTx =>
    }
  }

  datatype State = State(
    cnt: int,
    slot: Payload,
    thread: Thread,
    started: Payload,
    offers: nat,
    dropped: nat,
    accepted: seq<Payload>,
    served: seq<Payload>,
    forwarded: seq<Payload>,
    hand: Payload,
    loaded: set<Field>)

  /** `Offer` is a call of `wakeup_rxtx` by any unit.  After the release the arguments of `wakeup_tx` are loaded
      field by field, without the mutex, and handed on by the call.  The loads come in any order; a load among
      the stores of an acceptance sees its field before or after, so an acceptance is one step. */
  datatype Action = Offer(x: Payload) | Check | Finish | Load(f: Field) | HandOn | Spurious

  ghost predicate Init(s: State) {
    && s.cnt == -1 && s.thread == Checking && s.offers == s.dropped == 0
    && s.accepted == [] && s.served == [] && s.forwarded == [] && s.loaded == {}
  }

  ghost predicate Next(s: State, a: Action, s': State) {
    match a
    case Offer(x) =>
      if s.cnt == 0 then s' == s.(offers := s.offers + 1, dropped := s.dropped + 1)
      else s' == s.(offers := s.offers + 1, cnt := s.cnt + 1, slot := x, accepted := s.accepted + [x],
                    thread := if s.thread == Waiting then Checking else s.thread)
    case Check =>
      s.thread == Checking &&
      s' == if s.cnt < 0 then s.(thread := Waiting) else s.(thread := Serving, started := s.slot)
    case Finish =>
      s.thread == Serving &&
      s' == s.(cnt := -1, thread := Released, served := s.served + [s.started], loaded := {})
    case Load(f) =>
      s.thread == Released && f !in s.loaded &&
      s' == s.(hand := Copy(s.hand, s.slot, f), loaded := s.loaded + {f})
    case HandOn =>
      s.thread == Released && s.loaded == ALL_FIELDS &&
      s' == s.(thread := Checking, forwarded := s.forwarded + [s.hand])
    case Spurious =>
      s.thread == Waiting && s' == s.(thread := Checking)
  }

  ghost predicate Enabled(s: State, a: Action) {
    exists s' :: Next(s, a, s')
  }

  /** An offer is always a step. */
  lemma AlwaysEnabled(x: Payload)
    ensures forall s: State :: Enabled(s, Offer(x))
  {
    forall s: State ensures Enabled(s, Offer(x)) {
      var s' := if s.cnt == 0 then s.(offers := s.offers + 1, dropped := s.dropped + 1)
                else s.(offers := s.offers + 1, cnt := s.cnt + 1, slot := x, accepted := s.accepted + [x],
                        thread := if s.thread == Waiting then Checking else s.thread);
      assert Next(s, Offer(x), s');
    }
  }

  ghost predicate IsRun(ss: seq<State>, acts: seq<Action>) {
    && |ss| == |acts| + 1 && Init(ss[0])
    && forall i :: 0 <= i < |acts| ==> Next(ss[i], acts[i], ss[i + 1])
  }

  /** Conservation and stability: every offer is dropped, served, or the one in the slot; the slot does
      not change under the thread from its wake-up to its release; the thread never sleeps on a filled
      slot. */
  ghost predicate Safe(s: State) {
    && (s.cnt == -1 || s.cnt == 0)
    && s.offers == |s.accepted| + s.dropped
    && s.accepted == s.served + (if s.cnt == 0 then [s.slot] else [])
    && (s.thread == Serving ==> s.cnt == 0 && s.slot == s.started)
    && (s.thread == Waiting ==> s.cnt == -1)
  }

  lemma NextSafe(s: State, a: Action, s': State)
    requires Safe(s) && Next(s, a, s')
    ensures Safe(s')
    ensures s.cnt == 0 && !a.Finish? ==> s'.slot == s.slot && s'.cnt == 0
  {
  }

  lemma {:induction false} RunsAreSafe(ss: seq<State>, acts: seq<Action>)
    requires IsRun(ss, acts)
    ensures Safe(ss[|ss| - 1])
    decreases |acts|
  {
    if acts != [] {
      var k := |acts| - 1;
      assert IsRun(ss[..k + 1], acts[..k]);
      RunsAreSafe(ss[..k + 1], acts[..k]);
      assert ss[..k + 1][k] == ss[k];
      NextSafe(ss[k], acts[k], ss[k + 1]);
    }
  }

  // ---------------------------------------------------------------- the loads after the release

  /** No release lies strictly between two positions. */
  ghost predicate NoFinish(acts: seq<Action>, j: int, k: nat)
    requires k <= |acts|
  {
    forall m :: 0 <= j < m < k ==> acts[m] != Finish
  }

  /** A subframe was accepted since the last release before position `k`. */
  ghost predicate Overtaken(ss: seq<State>, acts: seq<Action>, k: nat)
    requires k <= |acts| < |ss|
  {
    exists j :: AcceptedAt(ss, acts, j, k) && NoFinish(acts, j, k)
  }

  predicate AcceptedAt(ss: seq<State>, acts: seq<Action>, j: int, k: nat)
    requires k <= |acts| < |ss|
  {
    0 <= j < k && acts[j].Offer? && ss[j].cnt != 0
  }

  /** Which is when the slot is filled. */
  lemma {:induction false} FilledIff(ss: seq<State>, acts: seq<Action>, k: nat)
    requires IsRun(ss, acts) && k <= |acts|
    ensures Safe(ss[k])
    ensures ss[k].cnt == 0 <==> Overtaken(ss, acts, k)
  {
    if k > 0 {
      FilledIff(ss, acts, k - 1);
      NextSafe(ss[k - 1], acts[k - 1], ss[k]);
      if Overtaken(ss, acts, k - 1) && acts[k - 1] != Finish {
        var j :| AcceptedAt(ss, acts, j, k - 1) && NoFinish(acts, j, k - 1);
        assert AcceptedAt(ss, acts, j, k) && NoFinish(acts, j, k);
      }
      if AcceptedAt(ss, acts, k - 1, k) { assert NoFinish(acts, k - 1, k); }
      if Overtaken(ss, acts, k) && !AcceptedAt(ss, acts, k - 1, k) {
        var j :| AcceptedAt(ss, acts, j, k) && NoFinish(acts, j, k);
        assert AcceptedAt(ss, acts, j, k - 1) && NoFinish(acts, j, k - 1);
        assert acts[k - 1] != Finish;
      }
    }
  }

  /** Field `f` was loaded at `l`, since the last release before `n`. */
  ghost predicate LoadAt(acts: seq<Action>, l: int, n: nat, f: Field)
    requires n <= |acts|
  {
    0 <= l < n && acts[l] == Load(f) && NoFinish(acts, l, n)
  }

  ghost predicate LoadedBy(acts: seq<Action>, n: nat, f: Field)
    requires n <= |acts|
  {
    exists l :: LoadAt(acts, l, n, f)
  }

  /** It was loaded after a subframe had been accepted. */
  ghost predicate Late(ss: seq<State>, acts: seq<Action>, n: nat, f: Field)
    requires n <= |acts| < |ss|
  {
    exists l :: LoadAt(acts, l, n, f) && Overtaken(ss, acts, l)
  }

  /** How one step changes the loads since the last release. */
  lemma LoadsStep(ss: seq<State>, acts: seq<Action>, n: nat, f: Field)
    requires n < |acts| < |ss|
    ensures LoadedBy(acts, n + 1, f) <==> acts[n] == Load(f) || (acts[n] != Finish && LoadedBy(acts, n, f))
    ensures Late(ss, acts, n + 1, f) <==>
      (acts[n] == Load(f) && Overtaken(ss, acts, n)) || (acts[n] != Finish && Late(ss, acts, n, f))
  {
    forall l ensures LoadAt(acts, l, n + 1, f) <==>
      (l == n && acts[n] == Load(f)) || (acts[n] != Finish && LoadAt(acts, l, n, f))
    {
      LoadAtStep(acts, l, n, f);
    }
    if acts[n] == Load(f) { assert LoadAt(acts, n, n + 1, f); }
    if acts[n] != Finish && LoadedBy(acts, n, f) {
      var l :| LoadAt(acts, l, n, f);
      assert LoadAt(acts, l, n + 1, f);
    }
    if LoadedBy(acts, n + 1, f) {
      var l :| LoadAt(acts, l, n + 1, f);
      LoadAtStep(acts, l, n, f);
    }
  }

  lemma LoadAtStep(acts: seq<Action>, l: int, n: nat, f: Field)
    requires n < |acts|
    ensures LoadAt(acts, l, n + 1, f) <==>
      (l == n && acts[n] == Load(f)) || (acts[n] != Finish && LoadAt(acts, l, n, f))
  {
  }

  /** `v` is field `f` of the i-th accepted subframe, or of the next. */
  predicate Taken(accepted: seq<Payload>, i: int, late: bool, f: Field, v: int) {
    var j := if late then i + 1 else i;
    0 <= j < |accepted| && FieldOf(accepted[j], f) == v
  }

  /** What the slot and the hand hold while the thread has released the slot but not yet handed it on. */
  ghost predicate Loading(ss: seq<State>, acts: seq<Action>, n: nat)
    requires n <= |acts| < |ss|
  {
    var s := ss[n];
    && Safe(s)
    && |s.forwarded| == |s.served| - (if s.thread == Released then 1 else 0)
    && (s.thread == Released && s.cnt == -1 ==> s.slot == s.served[|s.served| - 1])
    && forall f :: FieldRight(ss, acts, n, f)
  }

  ghost predicate FieldRight(ss: seq<State>, acts: seq<Action>, n: nat, f: Field)
    requires n <= |acts| < |ss|
  {
    var s := ss[n];
    && (f in s.loaded <==> LoadedBy(acts, n, f))
    && (s.thread == Released && f in s.loaded ==>
          Taken(s.accepted, |s.served| - 1, Late(ss, acts, n, f), f, FieldOf(s.hand, f)))
  }

  lemma {:induction false} RunsAreLoading(ss: seq<State>, acts: seq<Action>, n: nat)
    requires IsRun(ss, acts) && n <= |acts|
    ensures Loading(ss, acts, n)
  {
    if n > 0 {
      var k := n - 1;
      RunsAreLoading(ss, acts, k);
      NextSafe(ss[k], acts[k], ss[n]);
      forall f ensures FieldRight(ss, acts, n, f) { NextFieldRight(ss, acts, k, f); }
    }
  }

  lemma NextFieldRight(ss: seq<State>, acts: seq<Action>, k: nat, f: Field)
    requires IsRun(ss, acts) && k < |acts| && Loading(ss, acts, k)
    ensures FieldRight(ss, acts, k + 1, f)
  {
    LoadsStep(ss, acts, k, f);
    FilledIff(ss, acts, k);
    assert FieldRight(ss, acts, k, f);
    if Late(ss, acts, k, f) { assert LoadedBy(acts, k, f); }
    FieldStep(ss[k], acts[k], ss[k + 1], f, Late(ss, acts, k, f), Late(ss, acts, k + 1, f));
  }

  /** What one step does to a field in hand. */
  lemma FieldStep(s: State, a: Action, s': State, f: Field, late: bool, late': bool)
    requires Safe(s) && Next(s, a, s')
    requires s.thread == Released ==> s.served != [] && (s.cnt == -1 ==> s.slot == s.served[|s.served| - 1])
    requires s.thread == Released && f in s.loaded ==>
      Taken(s.accepted, |s.served| - 1, late, f, FieldOf(s.hand, f))
    requires late ==> f in s.loaded
    requires late' <==> (a == Load(f) && s.cnt == 0) || (a != Finish && late)
    ensures s'.thread == Released && f in s'.loaded ==>
      Taken(s'.accepted, |s'.served| - 1, late', f, FieldOf(s'.hand, f))
  {
    assert s.cnt == 0 ==> s.accepted[|s.served|] == s.slot;
  }

  // ---------------------------------------------------------------- what is handed on

  /** What the call at `k`, the i-th, hands on, as seen in a later state: each field is that of the i-th accepted
      subframe, or of the next if it was loaded after that one had been accepted. */
  ghost predicate Handed(ss: seq<State>, acts: seq<Action>, k: nat, s: State)
    requires k < |acts| < |ss|
  {
    var i := |ss[k].forwarded|;
    && i < |s.forwarded| && i < |s.served|
    && forall f :: Taken(s.accepted, i, Late(ss, acts, k, f), f, FieldOf(s.forwarded[i], f))
  }

  /** Over every run, with the loads in any order and offers anywhere between them. */
  lemma {:induction false} EveryHandOn(ss: seq<State>, acts: seq<Action>, n: nat, k: nat)
    requires IsRun(ss, acts) && k < n <= |acts| && acts[k] == HandOn
    ensures Handed(ss, acts, k, ss[n])
    decreases n
  {
    RunsAreLoading(ss, acts, n - 1);
    if k == n - 1 {
      forall f ensures Taken(ss[n].accepted, |ss[k].forwarded|, Late(ss, acts, k, f), f, FieldOf(ss[k].hand, f)) {
        EveryField(f);
        assert FieldRight(ss, acts, k, f);
      }
    } else {
      EveryHandOn(ss, acts, n - 1, k);
      NextSafe(ss[n - 1], acts[n - 1], ss[n]);
    }
  }

  /** Field `f` of the call at `k` shows another subframe: it was loaded late, and differs in the two. */
  ghost predicate Foreign(ss: seq<State>, acts: seq<Action>, k: nat, f: Field)
    requires k < |acts| < |ss|
  {
    var i, s := |ss[k].forwarded|, ss[|acts|];
    Late(ss, acts, k, f) && i + 1 < |s.accepted| && FieldOf(s.accepted[i], f) != FieldOf(s.accepted[i + 1], f)
  }

  /** Payloads are equal exactly if all their fields are. */
  lemma SameFields(x: Payload, y: Payload)
    ensures x == y <==> forall f :: FieldOf(x, f) == FieldOf(y, f)
  {
    if forall f :: FieldOf(x, f) == FieldOf(y, f) {
      assert FieldOf(x, FrameRx) == FieldOf(y, FrameRx) && FieldOf(x, SubframeRx) == FieldOf(y, SubframeRx);
      assert FieldOf(x, FrameTx) == FieldOf(y, FrameTx) && FieldOf(x, SubframeTx) == FieldOf(y, SubframeTx);
      assert FieldOf(x, TimestampTx) == FieldOf(y, TimestampTx);
    }
  }

  /** A call hands on the subframe that was served exactly if every field loaded late is equal in both. */
  lemma HandedOnIff(ss: seq<State>, acts: seq<Action>, k: nat)
    requires IsRun(ss, acts) && k < |acts| && acts[k] == HandOn
    ensures var i, s := |ss[k].forwarded|, ss[|acts|];
      && i < |s.forwarded| && i < |s.served| && i < |s.accepted|
      && (s.forwarded[i] == s.accepted[i] <==> forall f :: !Foreign(ss, acts, k, f))
  {
    var i, s := |ss[k].forwarded|, ss[|acts|];
    EveryHandOn(ss, acts, |acts|, k);
    RunsAreLoading(ss, acts, |acts|);
    SameFields(s.forwarded[i], s.accepted[i]);
    forall f ensures FieldOf(s.forwarded[i], f) == FieldOf(s.accepted[i], f) <==> !Foreign(ss, acts, k, f) {
      assert Taken(s.accepted, i, Late(ss, acts, k, f), f, FieldOf(s.forwarded[i], f));
    }
  }

  /** Every served subframe has been handed on, in order; the last one may still be in hand. */
  predicate Faithful(s: State) {
    s.forwarded <= s.served
  }

  /** Over every run: what the thread hands on is what it served exactly if no call took a field from another
      subframe. */
  lemma FaithfulIff(ss: seq<State>, acts: seq<Action>)
    requires IsRun(ss, acts)
    ensures Faithful(ss[|acts|]) <==>
      forall k, f :: 0 <= k < |acts| && acts[k] == HandOn ==> !Foreign(ss, acts, k, f)
  {
    var s := ss[|acts|];
    RunsAreLoading(ss, acts, |acts|);
    if Faithful(s) {
      forall k, f | 0 <= k < |acts| && acts[k] == HandOn ensures !Foreign(ss, acts, k, f) {
        HandedOnIff(ss, acts, k);
      }
    } else {
      var i :| 0 <= i < |s.forwarded| && s.forwarded[i] != s.served[i];
      var k := HandOnOf(ss, acts, |acts|, i);
      HandedOnIff(ss, acts, k);
    }
  }

  /** The i-th call. */
  lemma {:induction false} HandOnOf(ss: seq<State>, acts: seq<Action>, n: nat, i: nat) returns (k: nat)
    requires IsRun(ss, acts) && n <= |acts| && i < |ss[n].forwarded|
    ensures k < n && acts[k] == HandOn && |ss[k].forwarded| == i
    decreases n
  {
    if acts[n - 1] == HandOn && i == |ss[n - 1].forwarded| {
      k := n - 1;
    } else {
      k := HandOnOf(ss, acts, n - 1, i);
    }
  }

  /** No subframe was accepted between a release and the last load after it. */
  ghost predicate NoneOvertaken(ss: seq<State>, acts: seq<Action>)
    requires |acts| < |ss|
  {
    forall l :: 0 <= l < |acts| && acts[l].Load? ==> !Overtaken(ss, acts, l)
  }

  /** Then everything is handed on as it was served. */
  lemma FaithfulIfNotOvertaken(ss: seq<State>, acts: seq<Action>)
    requires IsRun(ss, acts) && NoneOvertaken(ss, acts)
    ensures Faithful(ss[|acts|])
  {
    forall k, f | 0 <= k < |acts| && acts[k] == HandOn ensures !Foreign(ss, acts, k, f) { }
    FaithfulIff(ss, acts);
  }

  // ---------------------------------------------------------------- runs that go wrong

  /** A run goes on by one step. */
  lemma Step(ss: seq<State>, acts: seq<Action>, a: Action, s: State) returns (ss': seq<State>, acts': seq<Action>)
    requires IsRun(ss, acts) && Next(ss[|acts|], a, s)
    ensures IsRun(ss', acts') && ss'[|acts'|] == s
  {
    ss', acts' := ss + [s], acts + [a];
  }

  lemma LoadField(ss: seq<State>, acts: seq<Action>, f: Field) returns (ss': seq<State>, acts': seq<Action>)
    requires IsRun(ss, acts) && ss[|acts|].thread == Released && f !in ss[|acts|].loaded
    ensures IsRun(ss', acts')
    ensures var s := ss[|acts|]; ss'[|acts'|] == s.(hand := Copy(s.hand, s.slot, f), loaded := s.loaded + {f})
  {
    var s := ss[|acts|];
    ss', acts' := Step(ss, acts, Load(f), s.(hand := Copy(s.hand, s.slot, f), loaded := s.loaded + {f}));
  }

  /** A subframe has been served and released, and nothing loaded. */
  lemma ServeFirst(x: Payload) returns (ss: seq<State>, acts: seq<Action>)
    ensures IsRun(ss, acts)
    ensures var s := ss[|acts|];
      && s.cnt == -1 && s.thread == Released && s.slot == x && s.loaded == {}
      && s.accepted == [x] && s.served == [x] && s.forwarded == []
  {
    var s := State(-1, x, Checking, x, 0, 0, [], [], [], x, {});
    ss, acts := [s], [];
    s := s.(offers := 1, cnt := 0, accepted := [] + [x]);
    ss, acts := Step(ss, acts, Offer(x), s);
    s := s.(thread := Serving, started := x);
    ss, acts := Step(ss, acts, Check, s);
    s := s.(cnt := -1, thread := Released, served := [] + [x], loaded := {});
    ss, acts := Step(ss, acts, Finish, s);
  }

  lemma AcceptNext(ss: seq<State>, acts: seq<Action>, y: Payload) returns (ss': seq<State>, acts': seq<Action>)
    requires IsRun(ss, acts) && ss[|acts|].thread == Released && ss[|acts|].cnt == -1
    ensures IsRun(ss', acts')
    ensures var s := ss[|acts|];
      ss'[|acts'|] == s.(offers := s.offers + 1, cnt := 0, slot := y, accepted := s.accepted + [y])
  {
    var s := ss[|acts|];
    s := s.(offers := s.offers + 1, cnt := 0, slot := y, accepted := s.accepted + [y]);
    ss', acts' := Step(ss, acts, Offer(y), s);
  }

  /** The transmit fields, then the call. */
  lemma FinishLoads(ss: seq<State>, acts: seq<Action>) returns (ss': seq<State>, acts': seq<Action>)
    requires IsRun(ss, acts) && ss[|acts|].thread == Released && ss[|acts|].loaded == {FrameRx, SubframeRx}
    ensures IsRun(ss', acts')
    ensures var s := ss[|acts|];
      var x := Payload(s.hand.frameRx, s.hand.subframeRx, s.slot.frameTx, s.slot.subframeTx, s.slot.timestampTx);
      ss'[|acts'|] == s.(thread := Checking, hand := x, loaded := ALL_FIELDS, forwarded := s.forwarded + [x])
  {
    ss', acts' := LoadField(ss, acts, FrameTx);
    ss', acts' := LoadField(ss', acts', SubframeTx);
    ss', acts' := LoadField(ss', acts', TimestampTx);
    var s := ss'[|acts'|];
    assert s.loaded == ALL_FIELDS;
    ss', acts' := Step(ss', acts', HandOn, s.(thread := Checking, forwarded := s.forwarded + [s.hand]));
  }

  /** A run whose call hands on a mixture that is neither subframe: the second one is accepted after the receive
      fields have been loaded. */
  lemma TornRun(x: Payload, y: Payload) returns (ss: seq<State>, acts: seq<Action>)
    requires x.subframeRx != y.subframeRx && x.timestampTx != y.timestampTx
    ensures IsRun(ss, acts) && ss[|acts|].served == [x] && |ss[|acts|].forwarded| == 1
    ensures ss[|acts|].forwarded[0] == Payload(x.frameRx, x.subframeRx, y.frameTx, y.subframeTx, y.timestampTx)
    ensures ss[|acts|].forwarded[0] != x && ss[|acts|].forwarded[0] != y
  {
    ss, acts := ServeFirst(x);
    ss, acts := LoadRx(ss, acts);
    ss, acts := AcceptNext(ss, acts, y);
    ss, acts := FinishLoads(ss, acts);
  }

  /** The thread serves and releases the slot that it finds filled. */
  lemma ServeAgain(ss: seq<State>, acts: seq<Action>) returns (ss': seq<State>, acts': seq<Action>)
    requires IsRun(ss, acts) && ss[|acts|].thread == Checking && ss[|acts|].cnt == 0
    ensures IsRun(ss', acts')
    ensures var s := ss[|acts|];
      ss'[|acts'|] == s.(cnt := -1, thread := Released, started := s.slot, served := s.served + [s.slot], loaded := {})
  {
    var s := ss[|acts|];
    s := s.(thread := Serving, started := s.slot);
    ss', acts' := Step(ss, acts, Check, s);
    s := s.(cnt := -1, thread := Released, served := s.served + [s.started], loaded := {});
    ss', acts' := Step(ss', acts', Finish, s);
  }

  lemma LoadRx(ss: seq<State>, acts: seq<Action>) returns (ss': seq<State>, acts': seq<Action>)
    requires IsRun(ss, acts) && ss[|acts|].thread == Released && ss[|acts|].loaded == {}
    ensures IsRun(ss', acts')
    ensures var s := ss[|acts|];
      ss'[|acts'|] == s.(hand := s.hand.(frameRx := s.slot.frameRx, subframeRx := s.slot.subframeRx),
                         loaded := {FrameRx, SubframeRx})
  {
    ss', acts' := LoadField(ss, acts, FrameRx);
    ss', acts' := LoadField(ss', acts', SubframeRx);
  }

  /** A run in which the first subframe is lost to the transmit side and the second is handed on twice: it is
      accepted before the first load. */
  lemma OvertakenRun(x: Payload, y: Payload) returns (ss: seq<State>, acts: seq<Action>)
    ensures IsRun(ss, acts) && ss[|acts|].served == [x, y] && ss[|acts|].forwarded == [y, y]
  {
    ss, acts := ServeFirst(x);
    ss, acts := AcceptNext(ss, acts, y);
    ss, acts := LoadRx(ss, acts);
    ss, acts := FinishLoads(ss, acts);
    ss, acts := ServeAgain(ss, acts);
    ss, acts := LoadRx(ss, acts);
    ss, acts := FinishLoads(ss, acts);
  }
}
