/** The loops of the radio-unit thread and the two L1 threads over the queues of the gNB, as steps of the
    pipeline machine. */
module GnbThreads {
  import opened GnbPipeline
  import RxRing
  import opened NrClock

  /** `acts` leads from `s` to `s'`. */
  ghost predicate Leads(cfg: Cfg, s: State, acts: seq<Action>, s': State)
    requires ValidCfg(cfg)
  {
    if acts == [] then s == s'
    else
      var n := |acts| - 1;
      exists mid :: Leads(cfg, s, acts[..n], mid) && Next(cfg, mid, acts[n], s')
  }

  lemma Then(cfg: Cfg, s: State, acts: seq<Action>, mid: State, a: Action, s': State)
    requires ValidCfg(cfg) && Leads(cfg, s, acts, mid) && Next(cfg, mid, a, s')
    ensures Leads(cfg, s, acts + [a], s')
  {
    assert (acts + [a])[..|acts|] == acts;
  }

  /** What every step keeps, every sequence of steps keeps. */
  lemma {:induction false} LeadsKeeps(cfg: Cfg, s: State, acts: seq<Action>, s': State)
    requires ValidCfg(cfg) && Leads(cfg, s, acts, s')
    requires Refines(cfg, s) && RxRing.Inv(cfg, s)
    ensures Refines(cfg, s') && RxRing.Inv(cfg, s')
    decreases |acts|
  {
    if acts != [] {
      var n := |acts| - 1;
      var mid :| Leads(cfg, s, acts[..n], mid) && Next(cfg, mid, acts[n], s');
      LeadsKeeps(cfg, s, acts[..n], mid);
      NextRefines(cfg, mid, acts[n], s');
      RxRing.NextKeeps(cfg, mid, acts[n], s');
    }
  }

  lemma {:induction false} LeadsReachable(cfg: Cfg, s: State, acts: seq<Action>, s': State)
    requires ValidCfg(cfg) && Init(s) && Leads(cfg, s, acts, s')
    ensures Reachable(cfg, s')
    decreases |acts|
  {
    if acts == [] {
      assert IsRun(cfg, [s], []);
    } else {
      var n := |acts| - 1;
      var mid :| Leads(cfg, s, acts[..n], mid) && Next(cfg, mid, acts[n], s');
      LeadsReachable(cfg, s, acts[..n], mid);
      RxRing.Extend(cfg, mid, acts[n], s');
    }
  }

  /** The three threads taking turns, for `n` slots of equal length: the unit is never blocked, and the slots
      with an uplink part are reported, in order, once each. */
  method TakeTurns(cfg: Cfg, clk: Clock, n: nat, ghost period: nat, ghost groups: nat, ghost len: nat)
    returns (gnb: Gnb)
    requires ValidCfg(cfg) && Timed(cfg, clk) && Lengths(cfg, clk, period, groups, len, len)
    ensures |gnb.pushed| == n && forall i :: 0 <= i < n ==> gnb.pushed[i] == cfg.slots(i)
    ensures gnb.emitted == Filter(cfg, gnb.pushed)
  {
    gnb := new Gnb(cfg, clk);
    ghost var s, acts := gnb.View(), [];
    for k := 0 to n
      invariant fresh(gnb) && gnb.Between(cfg, clk, s, acts, k)
    {
      acts := Round(gnb, cfg, clk, k, s, acts, period, groups, len);
    }
    Settled(cfg, gnb.View(), s, acts);
  }

  /** One slot of the unit, after which the L1 threads run until they block. */
  method Round(gnb: Gnb, cfg: Cfg, clk: Clock, ghost k: nat, ghost s: State, ghost acts0: seq<Action>,
               ghost period: nat, ghost groups: nat, ghost len: nat)
    returns (ghost acts: seq<Action>)
    requires ValidCfg(cfg) && Timed(cfg, clk) && Lengths(cfg, clk, period, groups, len, len) && Init(s)
    requires gnb.Between(cfg, clk, s, acts0, k)
    modifies gnb
    ensures gnb.Between(cfg, clk, s, acts, k + 1)
  {
    var ok;
    ok, acts := gnb.RuTurn(cfg, clk, s, acts0);
    if !ok {
      LeadsReachable(cfg, s, acts, gnb.View());
      EqualSlotsNeverDeadlock(cfg, clk, period, groups, len, gnb.View());
    }
    gnb.NextRead(cfg, clk, k);
    acts := gnb.L1TxThread(cfg, s, acts);
    acts := gnb.L1RxThread(cfg, s, acts);
  }

  /** What turns have led to with nothing in flight. */
  lemma Settled(cfg: Cfg, v: State, s: State, acts: seq<Action>)
    requires ValidCfg(cfg) && Init(s) && Leads(cfg, s, acts, v) && Flow(v) == []
    ensures v.emitted == Filter(cfg, v.pushed)
    ensures forall i :: 0 <= i < |v.pushed| ==> v.pushed[i] == cfg.slots(i)
  {
    RxRing.InitKeeps(cfg, s);
    LeadsKeeps(cfg, s, acts, v);
  }

  class Gnb {
    var frameRx: nat
    var ttiRx: nat
    var timestampRx: nat
    var busy: seq<bool>
    var txOut: seq<Msg>
    var resp: seq<Msg>
    var rxOut: seq<Msg>
    ghost var ru: RuPc
    ghost var pushed: seq<Msg>
    ghost var emitted: seq<Msg>

    /** The state of the machine between the turns of the threads. */
    ghost function View(): State
      reads this
    {
      State(ru, busy, txOut, [], resp, [], rxOut, pushed, emitted)
    }

    /** The frame, slot and timestamp of the last read are those of read `n`. */
    ghost predicate OnTime(cfg: Cfg, clk: Clock, n: nat)
      requires clk.spf > 0
      reads this
    {
      var c := Tick(clk, n);
      && frameRx == (c / clk.spf) % FRAMES && ttiRx == c % clk.spf
      && timestampRx == Start(cfg, clk.spf, c) + clk.skew
    }

    /** After `k` rounds: the unit is ready for slot `k` and nothing is in flight. */
    ghost predicate Between(cfg: Cfg, clk: Clock, s: State, acts: seq<Action>, k: nat)
      requires ValidCfg(cfg) && clk.spf > 0
      reads this
    {
      && |pushed| == k && ru == Ready && |busy| == DEPTH && OnTime(cfg, clk, k)
      && Leads(cfg, s, acts, View()) && txOut == [] && resp == [] && Flow(View()) == []
    }

    /** After the first read, which sets the clock. */
    constructor(cfg: Cfg, clk: Clock)
      requires clk.spf > 0
      ensures Init(View()) && OnTime(cfg, clk, 0)
    {
      var c := Tick(clk, 0);
      frameRx, ttiRx := (c / clk.spf) % FRAMES, c % clk.spf;
      timestampRx := Start(cfg, clk.spf, c) + clk.skew;
      busy, txOut, resp, rxOut := [false, false, false, false], [], [], [];
      ru, pushed, emitted := Ready, [], [];
    }

    /** The head of the loop: the counters move on by one slot, and so does the timestamp: by the length of
        the slot before, whatever the device says, or over IF4p5 to the start of the slot in the frame. */
    method NextRead(cfg: Cfg, clk: Clock, ghost n: nat)
      requires Timed(cfg, clk) && OnTime(cfg, clk, n)
      modifies this`frameRx, this`ttiRx, this`timestampRx
      ensures OnTime(cfg, clk, n + 1)
    {
      var before := ttiRx;
      NextSlot(clk, n);
      if clk.wraps {
        timestampRx := frameRx * Start(cfg, clk.spf, clk.spf) + Start(cfg, clk.spf, ttiRx);
        WrappedStamp(cfg, clk, n + 1, frameRx, ttiRx);
      } else {
        timestampRx := timestampRx + cfg.samples(before);
        PlainStamp(cfg, clk, n, before);
      }
    }

    method NextSlot(clk: Clock, ghost n: nat)
      requires clk.spf > 0
      requires frameRx == (Tick(clk, n) / clk.spf) % FRAMES && ttiRx == Tick(clk, n) % clk.spf
      modifies this`frameRx, this`ttiRx
      ensures frameRx == (Tick(clk, n + 1) / clk.spf) % FRAMES && ttiRx == Tick(clk, n + 1) % clk.spf
    {
      TickStep(clk, n);
      if ttiRx == clk.spf - 1 {
        ttiRx := 0;
        FrameStep(Tick(clk, n) / clk.spf);
        frameRx := (frameRx + 1) % FRAMES;
      } else {
        ttiRx := ttiRx + 1;
      }
    }

    /** The transmit thread pulls a slot and runs `tx_func` on it. */
    method TxTurn(cfg: Cfg, ghost s: State, ghost acts: seq<Action>)
      requires ValidCfg(cfg) && |busy| == DEPTH && txOut != []
      requires Leads(cfg, s, acts, View())
      modifies this`txOut, this`resp
      ensures Leads(cfg, s, acts + [TxPull, TxRun], View())
      ensures txOut == old(txOut)[1..]
      ensures var m := old(txOut)[0];
        resp == old(resp) + if m.timestampTx / cfg.samples(m.slotTx) - cfg.slAhead >= 0 then [m] else []
    {
      var m := txOut[0];
      txOut := txOut[1..];
      ghost var mid := View().(txHand := [m]);
      Then(cfg, s, acts, old(View()), TxPull, mid);
      if m.timestampTx / cfg.samples(m.slotTx) - cfg.slAhead >= 0 {
        resp := resp + [m];
      }
      Then(cfg, s, acts + [TxPull], mid, TxRun, View());
      assert acts + [TxPull] + [TxRun] == acts + [TxPull, TxRun];
    }

    /** The receive thread pulls a slot and runs `rx_func` on it. */
    method RxTurn(cfg: Cfg, ghost s: State, ghost acts: seq<Action>)
      requires ValidCfg(cfg) && |busy| == DEPTH && resp != []
      requires Leads(cfg, s, acts, View())
      modifies this`resp, this`rxOut, this`emitted
      ensures Leads(cfg, s, acts + [RxPull, RxRun], View())
      ensures resp == old(resp)[1..]
      ensures var m := old(resp)[0];
        var reported := if cfg.slotType(m.frameRx, m.slotRx) in {Uplink, Mixed} then [m] else [];
        rxOut == old(rxOut) + reported && emitted == old(emitted) + reported
    {
      var m := resp[0];
      resp := resp[1..];
      ghost var mid := View().(rxHand := [m]);
      Then(cfg, s, acts, old(View()), RxPull, mid);
      var kind := cfg.slotType(m.frameRx, m.slotRx);
      if kind == Uplink || kind == Mixed {
        rxOut := rxOut + [m];
        emitted := emitted + [m];
      }
      Then(cfg, s, acts + [RxPull], mid, RxRun, View());
      assert acts + [RxPull] + [RxRun] == acts + [RxPull, RxRun];
    }

    /** `L1_tx_thread` until it blocks on its queue. */
    method L1TxThread(cfg: Cfg, ghost s: State, ghost acts0: seq<Action>) returns (ghost acts: seq<Action>)
      requires ValidCfg(cfg) && |busy| == DEPTH
      requires Leads(cfg, s, acts0, View())
      modifies this`txOut, this`resp
      ensures Leads(cfg, s, acts, View())
      ensures txOut == []
    {
      acts := acts0;
      while txOut != []
        invariant Leads(cfg, s, acts, View())
        decreases |txOut|
      {
        TxTurn(cfg, s, acts);
        acts := acts + [TxPull, TxRun];
      }
    }

    /** `L1_rx_thread` until it blocks on its queue. */
    method L1RxThread(cfg: Cfg, ghost s: State, ghost acts0: seq<Action>) returns (ghost acts: seq<Action>)
      requires ValidCfg(cfg) && |busy| == DEPTH
      requires Leads(cfg, s, acts0, View())
      modifies this`resp, this`rxOut, this`emitted
      ensures Leads(cfg, s, acts, View())
      ensures resp == []
    {
      acts := acts0;
      while resp != []
        invariant Leads(cfg, s, acts, View())
        decreases |resp|
      {
        RxTurn(cfg, s, acts);
        acts := acts + [RxPull, RxRun];
      }
    }

    /** The two threads empty the pipeline, and what has come out is then the filter of what went in. */
    method Drain(cfg: Cfg)
      requires ValidCfg(cfg) && Refines(cfg, View()) && RxRing.Inv(cfg, View())
      modifies this`txOut, this`resp, this`rxOut, this`emitted
      ensures txOut == [] && resp == [] && RxRing.Inv(cfg, View())
      ensures emitted == Filter(cfg, pushed)
    {
      ghost var s := View();
      ghost var acts := L1TxThread(cfg, s, []);
      acts := L1RxThread(cfg, s, acts);
      LeadsKeeps(cfg, s, acts, View());
      assert Flow(View()) == [];
    }

    /** Waits until the buffer of the slot is free, freeing every buffer that is reported, and marks it;
        false when the thread blocks on the empty L1_rx_out. */
    method TakeBuffer(cfg: Cfg, m: Msg, ghost s: State, ghost acts0: seq<Action>)
        returns (ok: bool, ghost acts: seq<Action>)
      requires ValidCfg(cfg) && ru == Ready && |busy| == DEPTH
      requires Buffered(cfg, m) && m == cfg.slots(|pushed|)
      requires Leads(cfg, s, acts0, View())
      modifies this`busy, this`rxOut, this`ru
      ensures Leads(cfg, s, acts, View()) && |busy| == DEPTH
      ensures ok ==> ru == Writing(m)
      ensures !ok ==> ru == Freeing(m) && rxOut == []
      ensures busy[Zone(m)] && busy[m.slotRx % 4]
    {
      var z := m.slotRx % DEPTH;
      acts := acts0 + [RuSlot(m)];
      if busy[z] {
        ru := Freeing(m);
        Then(cfg, s, acts0, old(View()), RuSlot(m), View());
        var notDone := true;
        while notDone
          invariant |busy| == DEPTH && ru == Freeing(m)
          invariant notDone ==> busy[z] && Leads(cfg, s, acts, View())
          invariant !notDone ==> Leads(cfg, s, acts, Marked(m, z))
          decreases notDone, |rxOut|
        {
          if rxOut == [] { return false, acts; }
          ghost var before := View();
          var y := rxOut[0].slotRx % DEPTH;
          rxOut := rxOut[1..];
          busy := busy[y := false];
          if y == z {
            notDone := false;
          }
          Then(cfg, s, acts, before, RuPull, if notDone then View() else Marked(m, z));
          acts := acts + [RuPull];
        }
      } else {
        Then(cfg, s, acts0, old(View()), RuSlot(m), Marked(m, z));
      }
      busy := busy[z := true];
      ru := Writing(m);
      ok := true;
    }

    /** The state once the buffer is marked for the slot. */
    ghost function Marked(m: Msg, z: nat): State
      requires z < |busy|
      reads this
    {
      View().(ru := Writing(m), busy := busy[z := true])
    }

    /** One slot of the radio-unit thread: transmit slot and timestamp from the clock, the buffer if the slot
        has an uplink part, and the push. */
    method RuTurn(cfg: Cfg, clk: Clock, ghost s: State, ghost acts0: seq<Action>)
        returns (ok: bool, ghost acts: seq<Action>)
      requires ValidCfg(cfg) && Timed(cfg, clk) && ru == Ready && |busy| == DEPTH
      requires Leads(cfg, s, acts0, View()) && OnTime(cfg, clk, |pushed|)
      modifies this`busy, this`rxOut, this`txOut, this`ru, this`pushed
      ensures Leads(cfg, s, acts, View()) && |busy| == DEPTH
      ensures var m := cfg.slots(|old(pushed)|);
        if ok then ru == Ready && pushed == old(pushed) + [m] && txOut == old(txOut) + [m]
        else ru == Freeing(m) && rxOut == [] && busy[Zone(m)] && pushed == old(pushed) && txOut == old(txOut)
    {
      var m := SlotOf(cfg, clk, |pushed|);
      ok, acts := PushSlot(cfg, m, s, acts0);
    }

    /** The slot of the last read: the timestamp is moved on by the slots of the lead. */
    method SlotOf(cfg: Cfg, clk: Clock, ghost n: nat) returns (m: Msg)
      requires Timed(cfg, clk) && OnTime(cfg, clk, n)
      ensures m == cfg.slots(n)
      ensures m.frameRx == frameRx && m.slotRx == ttiRx && m.slotTx == (ttiRx + cfg.slAhead) % clk.spf
    {
      ghost var c := Tick(clk, n);
      var lead := LeadSamples(cfg, clk, ttiRx, c);
      AddMod(c, clk.spf, cfg.slAhead);
      return Msg((ttiRx + cfg.slAhead) % clk.spf, frameRx, ttiRx, timestampRx + lead);
    }

    method PushSlot(cfg: Cfg, m: Msg, ghost s: State, ghost acts0: seq<Action>)
        returns (ok: bool, ghost acts: seq<Action>)
      requires ValidCfg(cfg) && ru == Ready && |busy| == DEPTH && m == cfg.slots(|pushed|)
      requires Leads(cfg, s, acts0, View())
      modifies this`busy, this`rxOut, this`txOut, this`ru, this`pushed
      ensures Leads(cfg, s, acts, View()) && |busy| == DEPTH
      ensures ok ==> ru == Ready && pushed == old(pushed) + [m] && txOut == old(txOut) + [m]
      ensures !ok ==> ru == Freeing(m) && rxOut == [] && busy[Zone(m)]
      ensures !ok ==> pushed == old(pushed) && txOut == old(txOut)
      ensures if cfg.feprx && cfg.slotType(m.frameRx, m.slotRx) in {Uplink, Mixed} then busy[m.slotRx % 4]
        else ok && busy == old(busy) && rxOut == old(rxOut)
    {
      ghost var last: Action;
      if cfg.slotType(m.frameRx, m.slotRx) != Downlink && cfg.feprx {
        ok, acts := TakeBuffer(cfg, m, s, acts0);
        if !ok {
          return;
        }
        last := RuPush;
      } else {
        acts, last := acts0, RuSlot(m);
      }
      ghost var before := View();
      txOut := txOut + [m];
      ru, pushed := Ready, pushed + [m];
      Then(cfg, s, acts, before, last, View());
      ok, acts := true, acts + [last];
    }
  }
}
