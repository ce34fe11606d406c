/** The gNB slot pipeline: the radio-unit thread, the L1 transmit thread and the L1 receive thread over
    the queues L1_tx_out, resp_L1 and L1_rx_out, and the ring of four receive-slot buffers that the
    radio unit reuses once L1_rx_out reports a slot finished. */
module GnbPipeline {

  datatype SlotType = Downlink | Uplink | Mixed

  /** One slot: transmit slot, receive frame and slot, transmit timestamp. */
  datatype Msg = Msg(slotTx: nat, frameRx: nat, slotRx: nat, timestampTx: nat)

  /** Slot lengths, slot types, the transmit lead, whether the unit runs the front-end, and the slots the
      unit takes, one for each of its reads. */
  datatype Cfg = Cfg(
    samples: nat -> nat,
    slotType: (nat, nat) -> SlotType,
    slAhead: nat,
    feprx: bool,
    slots: nat -> Msg)

  ghost predicate ValidCfg(cfg: Cfg) {
    forall s: nat :: cfg.samples(s) > 0
  }

  const DEPTH: nat := 4

  /** `absslot_rx < 0`: `tx_func` returns without triggering reception. */
  predicate Early(cfg: Cfg, m: Msg)
    requires cfg.samples(m.slotTx) > 0
  {
    m.timestampTx / cfg.samples(m.slotTx) < cfg.slAhead
  }

  /** The slot has an uplink part. */
  predicate Receives(cfg: Cfg, m: Msg) {
    cfg.slotType(m.frameRx, m.slotRx) != Downlink
  }

  /** The slot occupies a buffer of the ring. */
  predicate Buffered(cfg: Cfg, m: Msg) {
    cfg.feprx && Receives(cfg, m)
  }

  function Zone(m: Msg): (z: nat)
    ensures z < DEPTH
  {
    m.slotRx % DEPTH
  }

  // ---------------------------------------------------------------- the machine

  /** `Freeing` waits for the buffer of its slot, `Writing` fills it.  The next slot the unit takes is that
      of the next read; the reads before it are the slots it has pushed. */
  datatype RuPc = Ready | Freeing(m: Msg) | Writing(m: Msg)

  /** Queues are listed oldest first; `txHand` and `rxHand` hold the slot a thread works on. */
  datatype State = State(
    ru: RuPc,
    busy: seq<bool>,
    txOut: seq<Msg>,
    txHand: seq<Msg>,
    resp: seq<Msg>,
    rxHand: seq<Msg>,
    rxOut: seq<Msg>,
    pushed: seq<Msg>,
    emitted: seq<Msg>)

  datatype Action = RuSlot(m: Msg) | RuPull | RuPush | TxPull | TxRun | RxPull | RxRun

  function Push(s: State, m: Msg): State {
    s.(ru := Ready, txOut := s.txOut + [m], pushed := s.pushed + [m])
  }

  ghost predicate Next(cfg: Cfg, s: State, a: Action, s': State)
    requires ValidCfg(cfg)
  {
    |s.busy| == DEPTH &&
    match a
    case RuSlot(m) =>
      s.ru.Ready? && m == cfg.slots(|s.pushed|) &&
      s' == (if !Buffered(cfg, m) then Push(s, m)
             else if s.busy[Zone(m)] then s.(ru := Freeing(m))
             else s.(ru := Writing(m), busy := s.busy[Zone(m) := true]))
    case RuPull =>
      s.ru.Freeing? && s.rxOut != [] &&
      (var z := Zone(s.rxOut[0]);
       var t := s.(rxOut := s.rxOut[1..], busy := s.busy[z := false]);
       s' == if z == Zone(s.ru.m) then t.(ru := Writing(s.ru.m), busy := t.busy[z := true]) else t)
    case RuPush =>
      s.ru.Writing? && s' == Push(s, s.ru.m)
    case TxPull =>
      s.txHand == [] && s.txOut != [] && s' == s.(txHand := [s.txOut[0]], txOut := s.txOut[1..])
    case TxRun =>
      |s.txHand| == 1 &&
      s' == (if Early(cfg, s.txHand[0]) then s.(txHand := [])
             else s.(txHand := [], resp := s.resp + s.txHand))
    case RxPull =>
      s.rxHand == [] && s.resp != [] && s' == s.(rxHand := [s.resp[0]], resp := s.resp[1..])
    case RxRun =>
      |s.rxHand| == 1 &&
      s' == (if Receives(cfg, s.rxHand[0])
             then s.(rxHand := [], rxOut := s.rxOut + s.rxHand, emitted := s.emitted + s.rxHand)
             else s.(rxHand := []))
  }

  ghost predicate Init(s: State) {
    s == State(Ready, [false, false, false, false], [], [], [], [], [], [], [])
  }

  ghost predicate IsRun(cfg: Cfg, ss: seq<State>, acts: seq<Action>)
    requires ValidCfg(cfg)
  {
    && |ss| == |acts| + 1 && Init(ss[0])
    && forall i :: 0 <= i < |acts| ==> Next(cfg, ss[i], acts[i], ss[i + 1])
  }

  ghost predicate Reachable(cfg: Cfg, s: State)
    requires ValidCfg(cfg)
  {
    exists ss, acts :: IsRun(cfg, ss, acts) && s == ss[|ss| - 1]
  }

  // ---------------------------------------------------------------- the filter

  ghost predicate Wanted(cfg: Cfg, m: Msg)
    requires ValidCfg(cfg)
  {
    !Early(cfg, m) && Receives(cfg, m)
  }

  /** The slots whose reception is reported, in order. */
  ghost function Filter(cfg: Cfg, q: seq<Msg>): seq<Msg>
    requires ValidCfg(cfg)
  {
    if q == [] then [] else (if Wanted(cfg, q[0]) then [q[0]] else []) + Filter(cfg, q[1..])
  }

  lemma {:induction false} FilterConcat(cfg: Cfg, p: seq<Msg>, q: seq<Msg>)
    requires ValidCfg(cfg)
    ensures Filter(cfg, p + q) == Filter(cfg, p) + Filter(cfg, q)
    decreases |p|
  {
    if p == [] {
      assert p + q == q;
    } else {
      FilterConcat(cfg, p[1..], q);
      assert (p + q)[0] == p[0] && (p + q)[1..] == p[1..] + q;
    }
  }

  /** The slots on their way to L1_rx_out, oldest first. */
  function Flow(s: State): seq<Msg> {
    s.rxHand + s.resp + s.txHand + s.txOut
  }

  /** What has come out, followed by what is on its way, is the filter of what went in. */
  ghost predicate Refines(cfg: Cfg, s: State)
    requires ValidCfg(cfg)
  {
    && |s.rxHand| <= 1 && |s.txHand| <= 1
    && (forall m :: m in s.rxHand + s.resp ==> !Early(cfg, m))
    && s.emitted + Filter(cfg, Flow(s)) == Filter(cfg, s.pushed)
  }

  lemma PushRefines(cfg: Cfg, s: State, m: Msg)
    requires ValidCfg(cfg) && Refines(cfg, s)
    ensures Refines(cfg, Push(s, m))
  {
    assert Flow(Push(s, m)) == Flow(s) + [m];
    FilterConcat(cfg, Flow(s), [m]);
    FilterConcat(cfg, s.pushed, [m]);
  }

  /** A slot that is not wanted leaves the filter of the rest. */
  lemma FilterWithout(cfg: Cfg, front: seq<Msg>, m: Msg, back: seq<Msg>)
    requires ValidCfg(cfg) && !Wanted(cfg, m)
    ensures Filter(cfg, front + [m] + back) == Filter(cfg, front + back)
  {
    FilterConcat(cfg, front + [m], back);
    FilterConcat(cfg, front, [m]);
    FilterConcat(cfg, front, back);
  }

  lemma TxRunRefines(cfg: Cfg, s: State, s': State)
    requires ValidCfg(cfg) && Refines(cfg, s) && Next(cfg, s, TxRun, s')
    ensures Refines(cfg, s')
  {
    var m := s.txHand[0];
    if Early(cfg, m) {
      var front := s.rxHand + s.resp;
      assert s.txHand == [m];
      assert Flow(s') == front + s.txOut;
      FilterWithout(cfg, front, m, s.txOut);
    } else {
      assert Flow(s') == Flow(s);
    }
  }

  lemma RxRunRefines(cfg: Cfg, s: State, s': State)
    requires ValidCfg(cfg) && Refines(cfg, s) && Next(cfg, s, RxRun, s')
    ensures Refines(cfg, s')
  {
    var m := s.rxHand[0];
    assert m in s.rxHand + s.resp;
    assert Flow(s) == [m] + Flow(s');
    FilterConcat(cfg, [m], Flow(s'));
  }

  lemma NextRefines(cfg: Cfg, s: State, a: Action, s': State)
    requires ValidCfg(cfg) && Refines(cfg, s) && Next(cfg, s, a, s')
    ensures Refines(cfg, s')
  {
    match a {
      case RuSlot(m) => PushRefines(cfg, s, m); assert Flow(s.(ru := s'.ru, busy := s'.busy)) == Flow(s);
      case RuPull => assert Flow(s') == Flow(s);
      case RuPush => PushRefines(cfg, s, s.ru.m);
      case TxPull => assert Flow(s') == Flow(s);
      case TxRun => TxRunRefines(cfg, s, s');
      case RxPull => assert Flow(s') == Flow(s);
      case RxRun => RxRunRefines(cfg, s, s');
    }
  }

  /** Over every interleaving of the three threads. */
  lemma {:induction false} RunsRefine(cfg: Cfg, ss: seq<State>, acts: seq<Action>)
    requires ValidCfg(cfg) && IsRun(cfg, ss, acts)
    ensures Refines(cfg, ss[|ss| - 1])
    decreases |acts|
  {
    if acts != [] {
      var k := |acts| - 1;
      assert IsRun(cfg, ss[..k + 1], acts[..k]);
      RunsRefine(cfg, ss[..k + 1], acts[..k]);
      assert ss[..k + 1][k] == ss[k];
      NextRefines(cfg, ss[k], acts[k], ss[k + 1]);
    }
  }

  /** The filter keeps a slot, as often as it occurs, exactly if its reception slot is not before time zero and has an
      uplink part. */
  lemma {:induction false} FilterCounts(cfg: Cfg, q: seq<Msg>, m: Msg)
    requires ValidCfg(cfg)
    ensures multiset(Filter(cfg, q))[m] == if Reported(cfg, m) then multiset(q)[m] else 0
  {
    if q != [] {
      FilterCounts(cfg, q[1..], m);
      assert q == [q[0]] + q[1..];
    }
  }

  /** The slot `slAhead` before the transmit slot is not before time zero, and it is an uplink or a mixed slot. */
  ghost predicate Reported(cfg: Cfg, m: Msg)
    requires ValidCfg(cfg)
  {
    && m.timestampTx / cfg.samples(m.slotTx) - cfg.slAhead >= 0
    && (cfg.slotType(m.frameRx, m.slotRx) == Uplink || cfg.slotType(m.frameRx, m.slotRx) == Mixed)
  }

  /** Once drained, the reported slots are exactly the wanted ones, in order, once each; before that
      they are a prefix of them. */
  lemma DrainedIsFilter(cfg: Cfg, ss: seq<State>, acts: seq<Action>)
    requires ValidCfg(cfg) && IsRun(cfg, ss, acts)
    ensures var s := ss[|ss| - 1];
      && s.emitted <= Filter(cfg, s.pushed)
      && (Flow(s) == [] ==> s.emitted == Filter(cfg, s.pushed))
      && (Flow(s) == [] ==> forall m :: m in s.emitted <==> m in s.pushed && Reported(cfg, m))
  {
    RunsRefine(cfg, ss, acts);
    var s := ss[|ss| - 1];
    forall m ensures m in Filter(cfg, s.pushed) <==> m in s.pushed && Reported(cfg, m) {
      FilterCounts(cfg, s.pushed, m);
      assert m in Filter(cfg, s.pushed) <==> m in multiset(Filter(cfg, s.pushed));
      assert m in s.pushed <==> m in multiset(s.pushed);
    }
  }

  /** Over every run: a drained pipeline has reported each pushed slot as often as it was pushed if it is not early
      and has an uplink part, and no other slot. */
  lemma DrainedReports(cfg: Cfg, ss: seq<State>, acts: seq<Action>, m: Msg)
    requires ValidCfg(cfg) && IsRun(cfg, ss, acts) && Flow(ss[|ss| - 1]) == []
    ensures var s, kind := ss[|ss| - 1], cfg.slotType(m.frameRx, m.slotRx);
      multiset(s.emitted)[m] ==
        if m.timestampTx / cfg.samples(m.slotTx) - cfg.slAhead >= 0 && (kind == Uplink || kind == Mixed)
        then multiset(s.pushed)[m] else 0
  {
    DrainedIsFilter(cfg, ss, acts);
    FilterCounts(cfg, ss[|ss| - 1].pushed, m);
  }

  /** Work left for the two L1 threads. */
  function Work(s: State): nat {
    4 * |s.txOut| + 3 * |s.txHand| + 2 * |s.resp| + |s.rxHand|
  }

  /** While something is in flight, one of the L1 threads can step. */
  lemma L1CanStep(cfg: Cfg, s: State) returns (a: Action, s': State)
    requires ValidCfg(cfg) && |s.busy| == DEPTH && |s.rxHand| <= 1 && |s.txHand| <= 1 && Flow(s) != []
    ensures Next(cfg, s, a, s') && (a.TxPull? || a.TxRun? || a.RxPull? || a.RxRun?)
  {
    if s.rxHand != [] {
      a := RxRun;
      s' := if Receives(cfg, s.rxHand[0])
            then s.(rxHand := [], rxOut := s.rxOut + s.rxHand, emitted := s.emitted + s.rxHand)
            else s.(rxHand := []);
    } else if s.resp != [] {
      a, s' := RxPull, s.(rxHand := [s.resp[0]], resp := s.resp[1..]);
    } else if s.txHand != [] {
      a := TxRun;
      s' := if Early(cfg, s.txHand[0]) then s.(txHand := []) else s.(txHand := [], resp := s.resp + s.txHand);
    } else {
      a, s' := TxPull, s.(txHand := [s.txOut[0]], txOut := s.txOut[1..]);
    }
  }

  /** And each of their steps leaves less to do, and the unit alone. */
  lemma Drains(cfg: Cfg, s: State, a: Action, s': State)
    requires ValidCfg(cfg) && |s.rxHand| <= 1 && |s.txHand| <= 1
    requires Next(cfg, s, a, s') && (a.TxPull? || a.TxRun? || a.RxPull? || a.RxRun?)
    ensures Work(s') < Work(s)
    ensures Work(s) == 0 <==> Flow(s) == []
    ensures s'.ru == s.ru && s'.busy == s.busy && s'.pushed == s.pushed
  {
  }
}
