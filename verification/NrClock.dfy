/** The clock of the gNB radio unit, and when the pipeline can deadlock by the slot lengths of the
    numerology. */
module NrClock {
  import opened GnbPipeline
  import opened RxRing
  import Timing

  // ---------------------------------------------------------------- arithmetic

  lemma QuotientBelow(t: nat, d: nat, a: nat)
    requires d > 0
    ensures t / d < a <==> t < a * d
  {
    var q := t / d;
    assert q * d <= t < q * d + d;
    if q < a {
      assert (a - (q + 1)) * d >= 0;
      assert (a - (q + 1)) * d == a * d - q * d - d;
    } else {
      assert (q - a) * d >= 0;
      assert (q - a) * d == q * d - a * d;
    }
  }

  lemma DivMod(x: nat, d: nat, q: nat, r: nat)
    requires d > 0 && x == q * d + r && r < d
    ensures x / d == q && x % d == r
  {
    Timing.QuotOf(q, r, d);
    Timing.QuotIsDivision(x, d);
  }

  lemma Regroup(p: nat, c: nat, n: nat, b: nat, q: nat, r: nat)
    requires n == p * c
    ensures n * b + (q * p + r) == (c * b + q) * p + r
  {
    assert n * b == c * b * p;
  }

  /** Reducing modulo a multiple first changes nothing. */
  lemma ModMod(x: nat, p: nat, c: nat, n: nat)
    requires p > 0 && n > 0 && n == p * c
    ensures (x % n) % p == x % p
  {
    var b, y := Timing.Split(x, n);
    var q, r := Timing.Split(y, p);
    DivMod(x, n, b, y);
    DivMod(y, p, q, r);
    Regroup(p, c, n, b, q, r);
    DivMod(x, p, c * b + q, r);
  }

  lemma Grows(c: nat, d: nat)
    ensures c * d >= 0 && (c > 0 ==> c * d >= d)
  {
    if c > 0 { assert c * d == (c - 1) * d + d && (c - 1) * d >= 0; }
  }

  /** `c + a` slots of which `q` are longer by `d`, against `a` of the longer ones. */
  lemma Compare(c: nat, a: nat, q: nat, short: nat, d: nat, skew: nat)
    ensures (c + a) * short + q * d + skew < a * (short + d) <==> c * short + q * d + skew < a * d
  {
    assert (c + a) * short == c * short + a * short;
    assert a * (short + d) == a * short + a * d;
  }

  // ---------------------------------------------------------------- the clock

  const FRAMES: nat := 1024

  /** The time base of a unit: slots per frame, the slot of its first read, how far into that slot the
      timestamp lies, and whether timestamps wrap with the frame number (as they do over IF4p5). */
  datatype Clock = Clock(spf: nat, first: nat, skew: nat, wraps: bool)

  /** The first sample of slot `k`, counted from frame 0, slot 0. */
  function Start(cfg: Cfg, spf: nat, k: nat): nat
    requires spf > 0
  {
    if k == 0 then 0 else Start(cfg, spf, k - 1) + cfg.samples((k - 1) % spf)
  }

  /** The slot number that the timestamp of read `n` stands for. */
  function Tick(clk: Clock, n: nat): nat
    requires clk.spf > 0
  {
    if clk.wraps then (clk.first + n) % (FRAMES * clk.spf) else clk.first + n
  }

  /** The slot the unit makes of slot number `c`. */
  function Produced(cfg: Cfg, clk: Clock, c: nat): Msg
    requires clk.spf > 0
  {
    Msg((c + cfg.slAhead) % clk.spf, (c / clk.spf) % FRAMES, c % clk.spf,
        Start(cfg, clk.spf, c + cfg.slAhead) + clk.skew)
  }

  /** The unit takes the slots of its clock.  The first timestamp lies less than any slot length into its
      slot: otherwise a later read would be taken for another slot, which is a timing exit. */
  ghost predicate Timed(cfg: Cfg, clk: Clock) {
    && clk.spf > 0 && (clk.wraps ==> clk.skew == 0)
    && (forall s: nat :: clk.skew < cfg.samples(s))
    && forall n: nat :: cfg.slots(n) == Produced(cfg, clk, Tick(clk, n))
  }

  /** The length of a number of whole frames and some slots. */
  lemma {:induction false} StartOfFrame(cfg: Cfg, spf: nat, f: nat, s: nat)
    requires spf > 0 && s <= spf
    ensures f * spf + s >= 0
    ensures Start(cfg, spf, f * spf + s) == f * Start(cfg, spf, spf) + Start(cfg, spf, s)
    decreases f, s
  {
    if s > 0 {
      StartOfFrame(cfg, spf, f, s - 1);
      DivMod(f * spf + (s - 1), spf, f, s - 1);
      DivMod(s - 1, spf, 0, s - 1);
    } else if f > 0 {
      StartOfFrame(cfg, spf, f - 1, spf);
      assert (f - 1) * spf + spf == f * spf;
      assert (f - 1) * Start(cfg, spf, spf) + Start(cfg, spf, spf) == f * Start(cfg, spf, spf);
    }
  }

  lemma NextDivMod(x: nat, d: nat)
    requires d > 0
    ensures if x % d == d - 1 then (x + 1) / d == x / d + 1 && (x + 1) % d == 0
      else (x + 1) / d == x / d && (x + 1) % d == x % d + 1
  {
    var q, r := Timing.Split(x, d);
    DivMod(x, d, q, r);
    if r == d - 1 {
      assert (q + 1) * d == q * d + d;
      DivMod(x + 1, d, q + 1, 0);
    } else {
      DivMod(x + 1, d, q, r + 1);
    }
  }

  lemma FrameStep(f: nat)
    ensures (f % FRAMES + 1) % FRAMES == (f + 1) % FRAMES
  {
  }

  lemma AddMod(x: nat, d: nat, i: nat)
    requires d > 0
    ensures (x % d + i) % d == (x + i) % d
  {
    var q, r := Timing.Split(x, d);
    var p, s := Timing.Split(r + i, d);
    DivMod(x, d, q, r);
    DivMod(r + i, d, p, s);
    Timing.Distribute(q, p, d);
    DivMod(x + i, d, q + p, s);
  }

  /** How the frame and slot numbers follow each other, across both wraps. */
  lemma TickStep(clk: Clock, n: nat)
    requires clk.spf > 0
    ensures var c, c' := Tick(clk, n), Tick(clk, n + 1);
      && c' % clk.spf == (if c % clk.spf == clk.spf - 1 then 0 else c % clk.spf + 1)
      && (c' / clk.spf) % FRAMES == ((c / clk.spf) + (if c % clk.spf == clk.spf - 1 then 1 else 0)) % FRAMES
      && (!clk.wraps ==> c' == c + 1)
  {
    var c, h := Tick(clk, n), FRAMES * clk.spf;
    NextDivMod(c, clk.spf);
    if clk.wraps {
      NextDivMod(clk.first + n, h);
      if (clk.first + n) % h == h - 1 {
        assert c == 1023 * clk.spf + (clk.spf - 1);
        DivMod(c, clk.spf, 1023, clk.spf - 1);
        DivMod(0, clk.spf, 0, 0);
      }
    }
  }

  lemma FrameBelow(c: nat, spf: nat)
    requires spf > 0 && c < FRAMES * spf
    ensures (c / spf) % FRAMES == c / spf
  {
    QuotientBelow(c, spf, FRAMES);
  }

  lemma WrappedStart(cfg: Cfg, spf: nat, c: nat, f: nat, s: nat)
    requires spf > 0 && c < FRAMES * spf && f == (c / spf) % FRAMES && s == c % spf
    ensures Start(cfg, spf, c) == f * Start(cfg, spf, spf) + Start(cfg, spf, s)
  {
    FrameBelow(c, spf);
    StartOfSlot(cfg, spf, c);
  }

  /** The timestamp of a slot over IF4p5, from its frame and slot numbers. */
  lemma WrappedStamp(cfg: Cfg, clk: Clock, n: nat, f: nat, s: nat)
    requires clk.spf > 0 && clk.wraps && f == (Tick(clk, n) / clk.spf) % FRAMES && s == Tick(clk, n) % clk.spf
    ensures Start(cfg, clk.spf, Tick(clk, n)) == f * Start(cfg, clk.spf, clk.spf) + Start(cfg, clk.spf, s)
  {
    WrappedStart(cfg, clk.spf, Tick(clk, n), f, s);
  }

  /** The timestamp of the next slot over RF. */
  lemma PlainStamp(cfg: Cfg, clk: Clock, n: nat, s: nat)
    requires clk.spf > 0 && !clk.wraps && s == Tick(clk, n) % clk.spf
    ensures Start(cfg, clk.spf, Tick(clk, n + 1)) == Start(cfg, clk.spf, Tick(clk, n)) + cfg.samples(s)
  {
  }

  lemma StartOfSlot(cfg: Cfg, spf: nat, c: nat)
    requires spf > 0
    ensures Start(cfg, spf, c) == (c / spf) * Start(cfg, spf, spf) + Start(cfg, spf, c % spf)
  {
    var q, r := Timing.Split(c, spf);
    DivMod(c, spf, q, r);
    StartOfFrame(cfg, spf, q, r);
  }

  /** The samples of the lead, from slot `c` on. */
  method LeadSamples(cfg: Cfg, clk: Clock, tti: nat, ghost c: nat) returns (sum: nat)
    requires clk.spf > 0 && tti == c % clk.spf
    ensures Start(cfg, clk.spf, c) + sum == Start(cfg, clk.spf, c + cfg.slAhead)
  {
    sum := 0;
    for i := tti to tti + cfg.slAhead
      invariant Start(cfg, clk.spf, c) + sum == Start(cfg, clk.spf, c + (i - tti))
    {
      AddMod(c, clk.spf, i - tti);
      sum := sum + cfg.samples(i % clk.spf);
    }
  }

  // ---------------------------------------------------------------- dropped slots

  /** A slot is early exactly when its transmit timestamp is below as many slots of its own length as the
      lead. */
  lemma EarlyIff(cfg: Cfg, m: Msg)
    requires ValidCfg(cfg)
    ensures Early(cfg, m) <==> m.timestampTx < cfg.slAhead * cfg.samples(m.slotTx)
  {
    QuotientBelow(m.timestampTx, cfg.samples(m.slotTx), cfg.slAhead);
  }

  /** The slot lengths of a numerology: every `period`-th slot is long, the others are short.  With
      numerology 0 and 1 every slot is long. */
  ghost predicate Lengths(cfg: Cfg, clk: Clock, period: nat, groups: nat, long: nat, short: nat) {
    && period > 0 && clk.spf == period * groups > 0 && short <= long
    && forall s: nat :: cfg.samples(s) == if s % period == 0 then long else short
  }

  /** Long slots among the first `k`. */
  function Longs(period: nat, k: nat): nat
    requires period > 0
  {
    if k == 0 then 0 else Longs(period, k - 1) + if (k - 1) % period == 0 then 1 else 0
  }

  lemma {:induction false} LongsAt(period: nat, q: nat, r: nat)
    requires period > 0 && r <= period
    ensures q * period + r >= 0
    ensures Longs(period, q * period + r) == q + if r == 0 then 0 else 1
    decreases q, r
  {
    if r > 0 {
      LongsAt(period, q, r - 1);
      DivMod(q * period + (r - 1), period, q, r - 1);
    } else if q > 0 {
      LongsAt(period, q - 1, period);
      assert (q - 1) * period + period == q * period;
    }
  }

  lemma {:induction false} StartIs(cfg: Cfg, clk: Clock, period: nat, groups: nat, long: nat, short: nat, k: nat)
    requires Lengths(cfg, clk, period, groups, long, short)
    ensures Start(cfg, clk.spf, k) == k * short + Longs(period, k) * (long - short)
  {
    if k > 0 {
      StartIs(cfg, clk, period, groups, long, short, k - 1);
      ModMod(k - 1, period, groups, clk.spf);
      var n, d := Longs(period, k - 1), long - short;
      Timing.Distribute(k - 1, 1, short);
      Timing.Distribute(n, 1, d);
    }
  }

  /** Slot `c` is dropped: its transmit slot is a long one, and the time before it does not make up for the
      short slots in the lead. */
  predicate DropsAt(cfg: Cfg, clk: Clock, period: nat, long: nat, short: nat, c: nat)
    requires period > 0 && short <= long
  {
    var k := c + cfg.slAhead;
    k % period == 0 && c * short + (k / period) * (long - short) + clk.skew < cfg.slAhead * (long - short)
  }

  lemma LeadTooShort(cfg: Cfg, clk: Clock, period: nat, groups: nat, long: nat, short: nat, c: nat)
    requires Lengths(cfg, clk, period, groups, long, short)
    ensures var k := c + cfg.slAhead;
      Start(cfg, clk.spf, k) + clk.skew < cfg.slAhead * cfg.samples(k % clk.spf) <==>
      DropsAt(cfg, clk, period, long, short, c)
  {
    var k, d := c + cfg.slAhead, long - short;
    ModMod(k, period, groups, clk.spf);
    StartIs(cfg, clk, period, groups, long, short, k);
    if k % period == 0 {
      LongsOfMultiple(period, k);
      Compare(c, cfg.slAhead, k / period, short, d, clk.skew);
    } else {
      Grows(Longs(period, k), d);
      Compare(c, cfg.slAhead, Longs(period, k), short, 0, clk.skew);
      Grows(c, short);
    }
  }

  /** Which of the unit's slots are early. */
  lemma ProducedEarlyIff(cfg: Cfg, clk: Clock, period: nat, groups: nat, long: nat, short: nat, n: nat)
    requires Timed(cfg, clk) && Lengths(cfg, clk, period, groups, long, short)
    ensures Early(cfg, cfg.slots(n)) <==> DropsAt(cfg, clk, period, long, short, Tick(clk, n))
  {
    EarlyIff(cfg, cfg.slots(n));
    LeadTooShort(cfg, clk, period, groups, long, short, Tick(clk, n));
  }

  lemma LongsOfMultiple(period: nat, k: nat)
    requires period > 0 && k % period == 0
    ensures Longs(period, k) == k / period
  {
    assert k == (k / period) * period;
    LongsAt(period, k / period, 0);
  }

  // ---------------------------------------------------------------- deadlock

  /** With slots of equal length, so with numerology 0 and 1, no slot of the unit is ever dropped ... */
  lemma EqualSlotsNeverEarly(cfg: Cfg, clk: Clock, period: nat, groups: nat, len: nat, n: nat)
    requires Timed(cfg, clk) && Lengths(cfg, clk, period, groups, len, len)
    ensures !Early(cfg, cfg.slots(n))
  {
    ProducedEarlyIff(cfg, clk, period, groups, len, len, n);
    Grows(Tick(clk, n), len);
  }

  /** ... and the pipeline never deadlocks. */
  lemma EqualSlotsNeverDeadlock(cfg: Cfg, clk: Clock, period: nat, groups: nat, len: nat, s: State)
    requires Timed(cfg, clk) && Lengths(cfg, clk, period, groups, len, len) && Reachable(cfg, s)
    ensures !Deadlock(s)
  {
    if Deadlock(s) {
      var i, j := DeadlockStalls(cfg, s);
      EqualSlotsNeverEarly(cfg, clk, period, groups, len, i);
    }
  }

  /** The lead is short: its length differences do not add up to a slot. */
  predicate ShortLead(cfg: Cfg, long: nat, short: nat)
    requires short <= long
  {
    cfg.slAhead * (long - short) <= short
  }

  /** Only slot 0 of frame 0 can then be dropped. */
  lemma OnlySlotZero(cfg: Cfg, clk: Clock, period: nat, long: nat, short: nat, c: nat)
    requires period > 0 && short <= long && ShortLead(cfg, long, short)
    ensures DropsAt(cfg, clk, period, long, short, c) <==> c == 0 && DropsAt(cfg, clk, period, long, short, 0)
  {
    if c > 0 {
      Grows(c, short);
      Grows((c + cfg.slAhead) / period, long - short);
      TooLate(c * short, ((c + cfg.slAhead) / period) * (long - short), clk.skew, cfg.slAhead * (long - short), short);
    }
  }

  lemma TooLate(before: nat, longer: nat, skew: nat, lead: nat, short: nat)
    requires before >= short >= lead
    ensures !(before + longer + skew < lead)
  {
  }

  /** Read `i` is slot 0 of frame 0 and occupies a buffer, and the slot of read `j` needs the same one. */
  ghost predicate ReusesZero(cfg: Cfg, clk: Clock, i: nat, j: nat)
    requires clk.spf > 0
  {
    && i < j && Tick(clk, i) == 0
    && Buffered(cfg, cfg.slots(i)) && Buffered(cfg, cfg.slots(j)) && Zone(cfg.slots(j)) == 0
  }

  /** With a short lead the pipeline can deadlock exactly when the unit reads slot 0 of frame 0, that slot has
      an uplink part and transmits in a long slot, and a later slot of the same buffer has an uplink part. */
  lemma ShortLeadDeadlockIff(cfg: Cfg, clk: Clock, period: nat, groups: nat, long: nat, short: nat)
    requires Timed(cfg, clk) && Lengths(cfg, clk, period, groups, long, short) && ShortLead(cfg, long, short)
    ensures (exists s :: Reachable(cfg, s) && Deadlock(s)) <==>
      DropsAt(cfg, clk, period, long, short, 0) && exists i: nat, j: nat :: ReusesZero(cfg, clk, i, j)
  {
    DeadlockIff(cfg);
    if i: nat, j: nat :| Stall(cfg, i, j) {
      StallIff(cfg, clk, period, groups, long, short, i, j);
    }
    if i: nat, j: nat :| ReusesZero(cfg, clk, i, j) {
      StallIff(cfg, clk, period, groups, long, short, i, j);
    }
  }

  lemma StallIff(cfg: Cfg, clk: Clock, period: nat, groups: nat, long: nat, short: nat, i: nat, j: nat)
    requires Timed(cfg, clk) && Lengths(cfg, clk, period, groups, long, short) && ShortLead(cfg, long, short)
    ensures Stall(cfg, i, j) <==> DropsAt(cfg, clk, period, long, short, 0) && ReusesZero(cfg, clk, i, j)
  {
    ProducedEarlyIff(cfg, clk, period, groups, long, short, i);
    OnlySlotZero(cfg, clk, period, long, short, Tick(clk, i));
    StallAtZero(cfg, clk, i, j, DropsAt(cfg, clk, period, long, short, 0));
  }

  lemma StallAtZero(cfg: Cfg, clk: Clock, i: nat, j: nat, early: bool)
    requires Timed(cfg, clk) && (Early(cfg, cfg.slots(i)) <==> Tick(clk, i) == 0 && early)
    ensures Stall(cfg, i, j) <==> early && ReusesZero(cfg, clk, i, j)
  {
    if Tick(clk, i) == 0 { ZeroZone(cfg, clk, i); }
  }

  lemma ZeroZone(cfg: Cfg, clk: Clock, n: nat)
    requires Timed(cfg, clk) && Tick(clk, n) == 0
    ensures Zone(cfg.slots(n)) == 0
  {
  }

  /** Such a unit: numerology 2 with 1024-point symbols, the default lead of six slots, frequency division
      (every slot has an uplink part), and a device whose first timestamp is zero. */
  lemma Numerology2Deadlocks(cfg: Cfg, clk: Clock)
    requires Timed(cfg, clk) && clk == Clock(40, 0, 0, false)
    requires forall s: nat :: cfg.samples(s) == if s % 2 == 0 then 15376 else 15344
    requires cfg.feprx && cfg.slAhead == 6 && forall f: nat, s: nat :: cfg.slotType(f, s) == Mixed
    ensures exists s :: Reachable(cfg, s) && Deadlock(s)
  {
    assert Lengths(cfg, clk, 2, 20, 15376, 15344);
    assert Tick(clk, 4) == 4 && cfg.slots(4) == Produced(cfg, clk, 4);
    assert ReusesZero(cfg, clk, 0, 4);
    ShortLeadDeadlockIff(cfg, clk, 2, 20, 15376, 15344);
  }
}
