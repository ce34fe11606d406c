/** Runs of the radio-unit thread over `rx_rf` and `tx_rf`: the clock for every sequence of device timestamps
    and resynch commands, and what is written when. */
module RadioRun {
  import opened FrameParms
  import opened Options
  import opened Timing
  import opened TxBurst
  import opened RadioUnit
  import Unwrap

  // ---------------------------------------------------------------- the clock

  /** The clock stands `r` samples into subframe `q`. */
  datatype Clock = Clock(q: nat, r: nat)

  /** The absolute subframe after a resynch to frame `c`, applied when the clock stood at `q`. */
  function Resynched(q: nat, c: nat): (r: nat)
  {
    assert FrameOf(q) <= q / 10;
    q + 1 - 10 * FrameOf(q) + 10 * c
  }

  /** `x / d` rounded down. */
  function Floor(x: int, d: nat): int
    requires d > 0
  {
    if x >= 0 then Quot(x, d) else -1 - Quot(-x - 1, d)
  }

  lemma FloorSplit(x: int, d: nat) returns (r: nat)
    requires d > 0
    ensures x == Floor(x, d) * d + r && r < d
  {
    if x >= 0 {
      var q;
      q, r := Split(x, d);
    } else {
      var q, s := Split(-x - 1, d);
      r := d - 1 - s;
      Distribute(q, 1, d);
      assert (-1 - q) * d == -((q + 1) * d);
    }
  }

  /** Where a command puts the clock: to the commanded frame, and on by the drift of the device in that read,
      which is not corrected. */
  function Commanded(k: Clock, c: nat, drift: int, spt: nat): int
    requires spt > 0
  {
    Resynched(k.q, c) + Floor(k.r + drift, spt)
  }

  /** The clock after a read. */
  function NextClock(k: Clock, cmd: Option<nat>, drift: int, spt: nat, emulate: bool): Clock
    requires spt > 0
  {
    if cmd.None? || emulate then Clock(k.q + 1, k.r)
    else
      var q, x := Commanded(k, cmd.value, drift, spt), k.r + drift;
      var r := x - Floor(x, spt) * spt;
      if q >= 0 && r >= 0 then Clock(q, r) else Clock(0, 0)
  }

  /** A command that `rx_rf` does not survive: it names no frame; or, without device time, another frame than
      the one that is due; or the drift moves the clock into another subframe (at a frame boundary, where the
      command is one frame off, any but the one ten subframes before). */
  predicate Fails(k: Clock, cmd: Option<nat>, drift: int, spt: nat, emulate: bool)
    requires spt > 0
  {
    cmd.Some? && (cmd.value >= 1024 ||
      if emulate then cmd.value != FrameOf(k.q + 1)
      else (Floor(k.r + drift, spt) + (if SfOf(k.q) == 9 then 10 else 0)) % Unwrap.HYPERFRAME != 0)
  }

  /** So with less drift than a frame a command is survived exactly if the previous subframe was not the last of
      its frame and the drift leaves the clock within its subframe. */
  lemma SmallDrift(k: Clock, c: nat, drift: int, spt: nat)
    requires spt > 0 && c < 1024 && -9 * spt <= k.r + drift < 10 * spt
    ensures !Fails(k, Some(c), drift, spt, false) <==> SfOf(k.q) <= 8 && 0 <= k.r + drift < spt
  {
    var x := k.r + drift;
    var r := FloorSplit(x, spt);
    FloorBounds(x, Floor(x, spt), r, spt);
  }

  lemma FloorBounds(x: int, f: int, r: nat, spt: nat)
    requires x == f * spt + r && r < spt && -9 * spt <= x < 10 * spt
    ensures -9 <= f < 10 && (f == 0 <==> 0 <= x < spt)
  {
    Compared(f, -10, spt);
    Compared(f, 10, spt);
    Compared(f, 1, spt);
    Compared(f, -1, spt);
  }

  /** Multiples of a length are ordered as their factors. */
  lemma Compared(f: int, g: int, spt: nat)
    ensures f <= g ==> f * spt <= g * spt
    ensures f >= g ==> f * spt >= g * spt
  {
    assert (f - g) * spt == f * spt - g * spt;
  }

  /** The device time the unit attributes to its clock after read `i`. */
  function DeviceAt(log: seq<Read>, i: nat, spt: nat): int
    requires i < |log|
  {
    log[i].ts - if i == 0 then ResynchDelta(0, log[0].cmd, spt) else 0
  }

  function DriftAt(log: seq<Read>, i: nat, spt: nat): int
    requires 0 < i < |log|
  {
    log[i].ts - DeviceAt(log, i - 1, spt) - spt
  }

  /** The clock after each read of a run. */
  function ClockAt(log: seq<Read>, i: nat, spt: nat, emulate: bool): Clock
    requires spt > 0 && i < |log|
  {
    if i == 0 then Clock(0, 0)
    else NextClock(ClockAt(log, i - 1, spt, emulate), log[i].cmd, DriftAt(log, i, spt), spt, emulate)
  }

  /** The read carries a command that is not survived. */
  predicate BadCommand(log: seq<Read>, i: nat, spt: nat, emulate: bool)
    requires spt > 0 && i < |log|
  {
    i > 0 && Fails(ClockAt(log, i - 1, spt, emulate), log[i].cmd, DriftAt(log, i, spt), spt, emulate)
  }

  /** No command takes the clock below zero, up to the first that is not survived. */
  predicate NonNegative(log: seq<Read>, spt: nat, emulate: bool)
    requires spt > 0
  {
    forall i :: 0 < i < |log| && Survived(log, i, spt, emulate) ==> StaysUpAt(log, i, spt, emulate)
  }

  /** The commands before read `i` are survived. */
  predicate Survived(log: seq<Read>, i: nat, spt: nat, emulate: bool)
    requires spt > 0 && i <= |log|
  {
    forall j :: 0 <= j < i ==> !BadCommand(log, j, spt, emulate)
  }

  predicate StaysUpAt(log: seq<Read>, i: nat, spt: nat, emulate: bool)
    requires spt > 0 && 0 < i < |log|
  {
    StaysUp(ClockAt(log, i - 1, spt, emulate), log[i].cmd, DriftAt(log, i, spt), spt, emulate)
  }

  predicate StaysUp(k: Clock, cmd: Option<nat>, drift: int, spt: nat, emulate: bool)
    requires spt > 0
  {
    cmd.Some? && cmd.value < 1024 && !emulate ==> Commanded(k, cmd.value, drift, spt) >= 0
  }

  /** Without commands the clock counts the reads, whatever the device says. */
  lemma {:induction false} PlainClock(log: seq<Read>, i: nat, spt: nat, emulate: bool)
    requires spt > 0 && i < |log| && forall j :: 0 < j < |log| ==> log[j].cmd.None?
    ensures ClockAt(log, i, spt, emulate) == Clock(i, 0) && !BadCommand(log, i, spt, emulate)
  {
    if i > 0 { PlainClock(log, i - 1, spt, emulate); }
  }

  // ---------------------------------------------------------------- one read

  /** The numbers of the subframe a command leads to are those the thread then expects exactly if the shift is
      a multiple of a hyperframe. */
  lemma ResynchExact(q: nat, c: nat, s: int)
    requires c < 1024 && Resynched(q, c) + s >= 0
    ensures var a: nat := Resynched(q, c) + s;
      FrameOf(a) == c && SfOf(a) == SfOf(q + 1) <==>
      (s + (if SfOf(q) == 9 then 10 else 0)) % Unwrap.HYPERFRAME == 0
  {
    var a: nat := Resynched(q, c) + s;
    var due, shift := 10 * c + SfOf(q + 1), s + if SfOf(q) == 9 then 10 else 0;
    ResynchedIs(q, c);
    ModShift(a, (q / 10) / 1024, due, shift);
    Unwrap.Wrapped(a);
    if a % Unwrap.HYPERFRAME == due {
      Unwrap.DigitsUnique(FrameOf(a), SfOf(a), c, SfOf(q + 1));
    }
  }

  lemma ModShift(a: nat, h: nat, due: nat, shift: int)
    requires due < Unwrap.HYPERFRAME && a == Unwrap.HYPERFRAME * h + due + shift
    ensures a % Unwrap.HYPERFRAME == due <==> shift % Unwrap.HYPERFRAME == 0
  {
  }

  lemma ResynchedIs(q: nat, c: nat)
    ensures Resynched(q, c) == 10240 * ((q / 10) / 1024) + 10 * c + SfOf(q + 1) + (if SfOf(q) == 9 then 10 else 0)
  {
  }

  /** The device timestamps of a resynch read without drift move the clock as `Resynched` says. */
  lemma ResynchStamp(q: nat, c: nat, spt: nat)
    requires ValidSpt(spt) && c < 1024
    ensures q * spt + spt - ResynchDelta(FrameOf(q), Some(c), spt) == Resynched(q, c) * spt
  {
    var f := FrameOf(q);
    var d := if f > c then f - c else c - f;
    SmallProduct(d, spt);
    assert (f - c) * spt * 10 == ResynchDelta(f, Some(c), spt) by {
      assert (f - c) * spt * 10 == (if f > c then d * spt * 10 else 0 - d * spt * 10);
    }
    ResynchAlgebra(q, f, c, spt);
  }

  lemma SmallProduct(d: nat, spt: nat)
    requires ValidSpt(spt) && d <= 1023
    ensures 0 <= d * spt * 10 < 0x1_0000_0000
  {
    assert d * spt <= 1023 * spt by { assert (1023 - d) * spt >= 0; }
  }

  lemma ResynchAlgebra(q: int, f: int, c: int, spt: int)
    ensures q * spt + spt - (f - c) * spt * 10 == (q + 1 - 10 * f + 10 * c) * spt
  {
  }

  /** What `ru_thread` sees after a read. */
  datatype Sample = Sample(timestamp: int, offset: int, frameRx: nat, ttiRx: int, frame: nat, subframe: int)

  /** A good sample: it stands where the clock does, the counters of the thread agree with the received frame
      and subframe, and offset and clock add up to the device time. */
  predicate Good(s: Sample, k: Clock, spt: nat, device: int, emulate: bool) {
    && k.r < spt && s.timestamp == k.q * spt + k.r
    && s.frameRx == s.frame == FrameOf(k.q)
    && s.ttiRx == s.subframe == SfOf(k.q)
    && (!emulate ==> s.offset + s.timestamp == device)
  }

  /** Where a command read leaves the clock. */
  lemma CommandKeeps(k: Clock, c: nat, drift: int, spt: nat)
    requires ValidSpt(spt) && k.r < spt && c < 1024 && Commanded(k, c, drift, spt) >= 0
    ensures var k' := NextClock(k, Some(c), drift, spt, false);
      && k'.r < spt && k'.q == Commanded(k, c, drift, spt)
      && k.q * spt + k.r + spt - ResynchDelta(FrameOf(k.q), Some(c), spt) + drift == k'.q * spt + k'.r
  {
    var x := k.r + drift;
    var r := FloorSplit(x, spt);
    ResynchStamp(k.q, c, spt);
    Distribute(Resynched(k.q, c), Floor(x, spt), spt);
  }

  /** One read of a run in progress. */
  lemma ReadKeeps(k: Clock, cmd: Option<nat>, drift: int, spt: nat, emulate: bool, stamp: int)
    requires ValidSpt(spt) && k.r < spt && StaysUp(k, cmd, drift, spt, emulate)
    requires cmd.None? || emulate ==> stamp == k.q * spt + k.r + spt
    requires cmd.Some? && !emulate ==>
      stamp == k.q * spt + k.r + spt - ResynchDelta(FrameOf(k.q), cmd, spt) + drift
    ensures var k' := NextClock(k, cmd, drift, spt, emulate);
      var (f, sf) := NextSubframe(FrameOf(k.q), SfOf(k.q));
      var frame := if cmd.None? then f else cmd.value;
      && (Fails(k, cmd, drift, spt, emulate) <==> FrameOfStamp(stamp, spt) != frame || TtiOfStamp(stamp, spt) != sf)
      && (!Fails(k, cmd, drift, spt, emulate) ==>
            && k'.r < spt && stamp == k'.q * spt + k'.r
            && frame == FrameOf(k'.q) && sf == SfOf(k'.q))
  {
    TickFollows(k.q);
    if cmd.None? || emulate {
      Distribute(k.q, 1, spt);
      StampNames(k.q + 1, k.r, spt);
    } else if cmd.value < 1024 {
      CommandKeeps(k, cmd.value, drift, spt);
      var k' := NextClock(k, cmd, drift, spt, emulate);
      StampNames(k'.q, k'.r, spt);
      ResynchExact(k.q, cmd.value, Floor(k.r + drift, spt));
    }
  }

  /** One iteration of the `ru_thread` loop after the first: `last` is the previous sample. */
  method Iterate(ru: RadioUnit, spt: nat, read: Read, emulate: bool, last: Sample, ghost k: Clock, ghost device: int)
    returns (s: Sample, exited: bool)
    requires ValidSpt(spt) && !ru.firstRx && Good(last, k, spt, device, emulate)
    requires Holds(ru, last)
    requires StaysUp(k, read.cmd, read.ts - device - spt, spt, emulate)
    modifies ru
    ensures exited <==> Fails(k, read.cmd, read.ts - device - spt, spt, emulate)
    ensures !exited ==> Good(s, NextClock(k, read.cmd, read.ts - device - spt, spt, emulate), spt, read.ts, emulate)
    ensures !ru.firstRx && Holds(ru, s)
    ensures ru.lateControl == if read.rxs != spt then Terminate else old(ru.lateControl)
  {
    var (f, sf) := NextSubframe(last.frame, last.subframe);
    var frame, subframe;
    frame, subframe, exited := ru.RxRf(spt, read, emulate, f, sf);
    ReadKeeps(k, read.cmd, read.ts - device - spt, spt, emulate, ru.timestampRx);
    s := Sample(ru.timestampRx, ru.tsOffset, ru.frameRx, ru.ttiRx, frame, subframe);
  }

  /** The first read sets the clock to zero. */
  method FirstRead(ru: RadioUnit, spt: nat, read: Read, emulate: bool) returns (s: Sample)
    requires ValidSpt(spt) && ru.firstRx && ru.tsOffset == 0 && ru.frameRx == 0
    modifies ru
    ensures Good(s, Clock(0, 0), spt, read.ts - ResynchDelta(0, read.cmd, spt), emulate)
    ensures !ru.firstRx && Holds(ru, s)
    ensures ru.lateControl == if read.rxs != spt then Terminate else old(ru.lateControl)
  {
    var frame, subframe, _ := ru.RxRf(spt, read, emulate, 0, 0);
    StampNames(0, 0, spt);
    s := Sample(ru.timestampRx, ru.tsOffset, ru.frameRx, ru.ttiRx, frame, subframe);
  }

  // ---------------------------------------------------------------- transmission

  /** What `tx_rf` did for a subframe: its type, the flag written, if any, and the device time of the write. */
  datatype Write = Write(sf: SfType, flag: Option<Flag>, at: int)

  function SfBefore(sf: nat): (r: nat)
    ensures r < 10
  {
    (sf + 9) % 10
  }

  /** By how much the write at the start of a burst is extended to the front. */
  function Extension(fp: Parms, sf: nat, sfExtension: nat): nat
    requires Valid(fp) && sf < 10
  {
    if fp.duplex == TDD && SubframeSelect(fp, sf) == DL && SubframeSelect(fp, SfBefore(sf)) == UL
    then sfExtension - sfExtension % 8 else 0
  }

  /** The call of `tx_rf` for subframe number `sf`, for the burst control. */
  function TxEvents(fp: Parms, sf: nat, short: bool): seq<Event>
    requires Valid(fp) && sf < 10
  {
    var t := SubframeSelect(fp, sf);
    if t == UL then [] else [Tx(BaseFlag(fp.duplex, t, SubframeSelect(fp, SfBefore(sf))), short)]
  }

  /** A read and the transmission that follows it, for the burst control. */
  function Turn(fp: Parms, read: Read, sf: nat, short: bool): seq<Event>
    requires Valid(fp) && sf < 10
  {
    (if read.rxs != fp.samplesPerTti then [RxFault] else []) + TxEvents(fp, sf, short)
  }

  /** The subframe numbers of the transmissions, `ahead` subframes after the reads. */
  function TxSubframes(log: seq<Read>, ahead: nat, spt: nat, emulate: bool): (sfs: seq<Subframe>)
    requires spt > 0
    ensures |sfs| == |log|
    ensures forall i {:trigger sfs[i]} :: 0 <= i < |log| ==> sfs[i] == TxSubframe(log, ahead, spt, emulate, i)
  {
    seq(|log|, i requires 0 <= i < |log| => TxSubframe(log, ahead, spt, emulate, i))
  }

  function TxSubframe(log: seq<Read>, ahead: nat, spt: nat, emulate: bool, i: nat): Subframe
    requires spt > 0 && i < |log|
  {
    SfOf(ClockAt(log, i, spt, emulate).q + ahead)
  }

  /** The first `n` reads of a run and their transmissions. */
  function Turns(fp: Parms, log: seq<Read>, shorts: seq<bool>, sfs: seq<Subframe>, n: nat): seq<Event>
    requires Valid(fp) && n <= |log| == |shorts| == |sfs|
  {
    if n == 0 then []
    else Turns(fp, log, shorts, sfs, n - 1) + Turn(fp, log[n - 1], sfs[n - 1], shorts[n - 1])
  }

  /** What the call wrote, if it was not for an uplink subframe. */
  function Try(w: Write): seq<Option<Flag>> {
    if w.sf == UL then [] else [w.flag]
  }

  /** What the first `n` calls wrote. */
  function Tries(writes: seq<Write>, n: nat): seq<Option<Flag>>
    requires n <= |writes|
  {
    if n == 0 then [] else Tries(writes, n - 1) + Try(writes[n - 1])
  }

  ghost predicate Holds(ru: RadioUnit, s: Sample)
    reads ru
  {
    ru.timestampRx == s.timestamp && ru.tsOffset == s.offset && ru.frameRx == s.frameRx && ru.ttiRx == s.ttiRx
  }

  lemma AheadOf(q: nat, ahead: nat)
    ensures (SfOf(q) + ahead) % 10 == SfOf(q + ahead)
  {
  }

  /** The call of `tx_rf` for the subframe `ahead` of the clock. */
  method CallTx(ru: RadioUnit, fp: Parms, s: Sample, emulate: bool, ahead: nat, sfExtension: nat, short: bool,
                writeThread: bool, ghost k: Clock, ghost device: int)
    returns (w: Write)
    requires Valid(fp) && Good(s, k, fp.samplesPerTti, device, emulate) && Holds(ru, s)
    modifies ru`lateControl
    ensures OnTime(fp, k, device, emulate, ahead, sfExtension, w)
    ensures var calls := TxEvents(fp, SfOf(k.q + ahead), short);
      if w.sf == UL then calls == [] && ru.lateControl == old(ru.lateControl)
      else |calls| == 1 && (ru.lateControl, [w.flag]) == Step(old(ru.lateControl), calls[0], writeThread)
  {
    var timestampTx := ru.timestampRx + ahead * fp.samplesPerTti;
    var ttiTx := (ru.ttiRx + ahead) % 10;
    AheadOf(k.q, ahead);
    var sf, prev := SubframeSelect(fp, ttiTx), SubframeSelect(fp, SfBefore(ttiTx));
    var flag, at := ru.TxRf(fp.duplex, sf, prev, timestampTx, sfExtension, short, writeThread);
    return Write(sf, flag, at);
  }

  predicate OnTime(fp: Parms, k: Clock, device: int, emulate: bool, ahead: nat, sfExtension: nat, w: Write)
    requires Valid(fp)
  {
    && w.sf == SubframeSelect(fp, SfOf(k.q + ahead))
    && (!emulate && w.flag.Some? ==>
          w.at + Extension(fp, SfOf(k.q + ahead), sfExtension) == device + ahead * fp.samplesPerTti)
  }

  method ReadAt(ru: RadioUnit, spt: nat, log: seq<Read>, i: nat, last: Sample, emulate: bool)
    returns (s: Sample, exited: bool)
    requires ValidSpt(spt) && i < |log| && ru.firstRx == (i == 0)
    requires i == 0 ==> ru.tsOffset == 0 && ru.frameRx == 0
    requires i > 0 ==>
      && Holds(ru, last) && StaysUpAt(log, i, spt, emulate)
      && Good(last, ClockAt(log, i - 1, spt, emulate), spt, DeviceAt(log, i - 1, spt), emulate)
    modifies ru
    ensures exited <==> BadCommand(log, i, spt, emulate)
    ensures !exited ==> Good(s, ClockAt(log, i, spt, emulate), spt, DeviceAt(log, i, spt), emulate)
    ensures !ru.firstRx && Holds(ru, s)
    ensures ru.lateControl == if log[i].rxs != spt then Terminate else old(ru.lateControl)
  {
    if i == 0 {
      s := FirstRead(ru, spt, log[0], emulate);
      exited := false;
    } else {
      ghost var k := ClockAt(log, i - 1, spt, emulate);
      s, exited := Iterate(ru, spt, log[i], emulate, last, k, DeviceAt(log, i - 1, spt));
    }
  }

  /** What the burst control makes of a read and the transmission after it, from one state to the next. */
  predicate Controlled(fp: Parms, read: Read, sf: nat, short: bool, late: Late, late': Late, w: Write,
                       writeThread: bool)
    requires Valid(fp) && sf < 10
  {
    var heard, calls := if read.rxs != fp.samplesPerTti then Terminate else late, TxEvents(fp, sf, short);
    if w.sf == UL then calls == [] && late' == heard
    else |calls| == 1 && (late', [w.flag]) == Step(heard, calls[0], writeThread)
  }

  /** What holds of read `i` and the transmission after it. */
  ghost predicate Right(fp: Parms, log: seq<Read>, emulate: bool, ahead: nat, sfExtension: nat, i: nat,
                        s: Sample, w: Write)
    requires Valid(fp) && i < |log|
  {
    var k, device := ClockAt(log, i, fp.samplesPerTti, emulate), DeviceAt(log, i, fp.samplesPerTti);
    && Good(s, k, fp.samplesPerTti, device, emulate) && !BadCommand(log, i, fp.samplesPerTti, emulate)
    && OnTime(fp, k, device, emulate, ahead, sfExtension, w)
  }

  ghost predicate AllRight(fp: Parms, log: seq<Read>, emulate: bool, ahead: nat, sfExtension: nat,
                           samples: seq<Sample>, writes: seq<Write>)
    requires Valid(fp) && |samples| <= |log|
  {
    && |writes| == |samples|
    && forall i {:trigger samples[i]} :: 0 <= i < |samples| ==>
         Right(fp, log, emulate, ahead, sfExtension, i, samples[i], writes[i])
  }

  /** The control states `lates` before and after each turn. */
  ghost predicate AllControlled(fp: Parms, log: seq<Read>, shorts: seq<bool>, sfs: seq<Subframe>,
                                lates: seq<Late>, writes: seq<Write>, writeThread: bool)
    requires Valid(fp) && |writes| <= |log| == |shorts| == |sfs|
  {
    && |lates| == |writes| + 1 && lates[0] == Normal
    && forall i {:trigger writes[i]} :: 0 <= i < |writes| ==>
         Controlled(fp, log[i], sfs[i], shorts[i], lates[i], lates[i + 1], writes[i], writeThread)
  }

  /** What the next read may rely on. */
  lemma GoesOn(fp: Parms, log: seq<Read>, emulate: bool, ahead: nat, sfExtension: nat, samples: seq<Sample>,
               writes: seq<Write>)
    requires Valid(fp) && |samples| < |log| && AllRight(fp, log, emulate, ahead, sfExtension, samples, writes)
    requires NonNegative(log, fp.samplesPerTti, emulate)
    ensures var i, spt := |samples|, fp.samplesPerTti;
      i > 0 ==>
        && StaysUpAt(log, i, spt, emulate)
        && Good(samples[i - 1], ClockAt(log, i - 1, spt, emulate), spt, DeviceAt(log, i - 1, spt), emulate)
  {
    var i := |samples|;
    assert Survived(log, i, fp.samplesPerTti, emulate) by {
      forall j | 0 <= j < i ensures !BadCommand(log, j, fp.samplesPerTti, emulate) {
        assert Right(fp, log, emulate, ahead, sfExtension, j, samples[j], writes[j]);
      }
    }
    if i > 0 { assert Right(fp, log, emulate, ahead, sfExtension, i - 1, samples[i - 1], writes[i - 1]); }
  }

  lemma AllRightSnoc(fp: Parms, log: seq<Read>, emulate: bool, ahead: nat, sfExtension: nat,
                     samples: seq<Sample>, writes: seq<Write>, s: Sample, w: Write)
    requires Valid(fp) && |samples| < |log| && AllRight(fp, log, emulate, ahead, sfExtension, samples, writes)
    requires Right(fp, log, emulate, ahead, sfExtension, |samples|, s, w)
    ensures AllRight(fp, log, emulate, ahead, sfExtension, samples + [s], writes + [w])
  {
    var samples', writes' := samples + [s], writes + [w];
    forall i | 0 <= i < |samples'| ensures Right(fp, log, emulate, ahead, sfExtension, i, samples'[i], writes'[i]) {
      if i < |samples| { assert samples'[i] == samples[i] && writes'[i] == writes[i]; }
    }
  }

  lemma AllControlledSnoc(fp: Parms, log: seq<Read>, shorts: seq<bool>, sfs: seq<Subframe>,
                          lates: seq<Late>, writes: seq<Write>, writeThread: bool, late: Late, w: Write)
    requires Valid(fp) && |writes| < |log| == |shorts| == |sfs|
    requires AllControlled(fp, log, shorts, sfs, lates, writes, writeThread)
    requires var i := |writes|; Controlled(fp, log[i], sfs[i], shorts[i], lates[i], late, w, writeThread)
    ensures AllControlled(fp, log, shorts, sfs, lates + [late], writes + [w], writeThread)
  {
    var lates', writes' := lates + [late], writes + [w];
    forall i | 0 <= i < |writes'|
      ensures Controlled(fp, log[i], sfs[i], shorts[i], lates'[i], lates'[i + 1], writes'[i], writeThread)
    {
      if i < |writes| { assert writes'[i] == writes[i] && lates'[i] == lates[i] && lates'[i + 1] == lates[i + 1]; }
    }
  }

  /** Read `i` and the transmission after it. */
  method OneTurn(ru: RadioUnit, fp: Parms, log: seq<Read>, i: nat, last: Sample, emulate: bool, ahead: nat,
                 sfExtension: nat, shorts: seq<bool>, writeThread: bool)
    returns (s: Sample, w: Write, exited: bool)
    requires Valid(fp) && ValidSpt(fp.samplesPerTti) && i < |log| == |shorts| && ru.firstRx == (i == 0)
    requires i == 0 ==> ru.tsOffset == 0 && ru.frameRx == 0
    requires i > 0 ==>
      && Holds(ru, last) && StaysUpAt(log, i, fp.samplesPerTti, emulate)
      && Good(last, ClockAt(log, i - 1, fp.samplesPerTti, emulate), fp.samplesPerTti,
              DeviceAt(log, i - 1, fp.samplesPerTti), emulate)
    modifies ru
    ensures exited ==> BadCommand(log, i, fp.samplesPerTti, emulate)
    ensures !exited ==>
      && !ru.firstRx && Holds(ru, s) && Right(fp, log, emulate, ahead, sfExtension, i, s, w)
      && Controlled(fp, log[i], TxSubframe(log, ahead, fp.samplesPerTti, emulate, i), shorts[i],
                    old(ru.lateControl), ru.lateControl, w, writeThread)
  {
    w := Write(UL, None, 0);
    s, exited := ReadAt(ru, fp.samplesPerTti, log, i, last, emulate);
    if !exited {
      ghost var k, device := ClockAt(log, i, fp.samplesPerTti, emulate), DeviceAt(log, i, fp.samplesPerTti);
      w := CallTx(ru, fp, s, emulate, ahead, sfExtension, shorts[i], writeThread, k, device);
    }
  }

  /** The `ru_thread` loop over `rx_rf` and `tx_rf`, for every sequence of device timestamps, resynch commands and
      short reads and writes.  Every accepted read agrees with the clock and with the local counters; the timing
      exits are reached exactly at the first bad command, so never without commands; every write is exactly the
      lead after the device time of its read; and the flags written are those of the burst control. */
  method RuThread(fp: Parms, log: seq<Read>, emulate: bool, ahead: nat, sfExtension: nat, shorts: seq<bool>,
                  writeThread: bool)
    returns (samples: seq<Sample>, writes: seq<Write>, exited: bool)
    requires Valid(fp) && ValidSpt(fp.samplesPerTti) && |shorts| == |log| && NonNegative(log, fp.samplesPerTti, emulate)
    ensures |samples| <= |log| && AllRight(fp, log, emulate, ahead, sfExtension, samples, writes)
    ensures exited <==> |samples| < |log|
    ensures exited ==> BadCommand(log, |samples|, fp.samplesPerTti, emulate)
    ensures var sfs := TxSubframes(log, ahead, fp.samplesPerTti, emulate);
      Tries(writes, |writes|) == Outputs(Turns(fp, log, shorts, sfs, |samples|), writeThread)
  {
    samples, writes, exited := [], [], false;
    var ru := new RadioUnit();
    var s := Sample(0, 0, 0, 0, 0, 0);
    ghost var lates, sfs := [Normal], TxSubframes(log, ahead, fp.samplesPerTti, emulate);
    for i := 0 to |log|
      invariant |samples| == i && fresh(ru) && !exited && ru.firstRx == (i == 0)
      invariant i == 0 ==> ru.tsOffset == 0 && ru.frameRx == 0
      invariant i > 0 ==> s == samples[i - 1] && Holds(ru, s)
      invariant AllRight(fp, log, emulate, ahead, sfExtension, samples, writes)
      invariant AllControlled(fp, log, shorts, sfs, lates, writes, writeThread) && lates[i] == ru.lateControl
    {
      var w;
      GoesOn(fp, log, emulate, ahead, sfExtension, samples, writes);
      s, w, exited := OneTurn(ru, fp, log, i, s, emulate, ahead, sfExtension, shorts, writeThread);
      if exited { break; }
      AllRightSnoc(fp, log, emulate, ahead, sfExtension, samples, writes, s, w);
      AllControlledSnoc(fp, log, shorts, sfs, lates, writes, writeThread, ru.lateControl, w);
      samples, writes, lates := samples + [s], writes + [w], lates + [ru.lateControl];
    }
    ControlIsBurstControl(fp, log, shorts, sfs, lates, writes, writeThread, |writes|);
  }

  /** The state after a run of the burst control, and what it has written. */
  ghost predicate Tracks(late: Late, tries: seq<Option<Flag>>, events: seq<Event>, writeThread: bool) {
    late == StateAfter(events, writeThread) && tries == Outputs(events, writeThread)
  }

  /** The states and flags are those of the run of the burst control. */
  lemma {:induction false} ControlIsBurstControl(fp: Parms, log: seq<Read>, shorts: seq<bool>, sfs: seq<Subframe>,
                                                 lates: seq<Late>, writes: seq<Write>, writeThread: bool, n: nat)
    requires Valid(fp) && n <= |writes| <= |log| == |shorts| == |sfs|
    requires AllControlled(fp, log, shorts, sfs, lates, writes, writeThread)
    ensures Tracks(lates[n], Tries(writes, n), Turns(fp, log, shorts, sfs, n), writeThread)
    decreases n
  {
    if n > 0 {
      var i := n - 1;
      ControlIsBurstControl(fp, log, shorts, sfs, lates, writes, writeThread, i);
      assert Controlled(fp, log[i], sfs[i], shorts[i], lates[i], lates[i + 1], writes[i], writeThread);
      TurnTracks(fp, log[i], sfs[i], shorts[i], lates[i], lates[n], Tries(writes, i), writes[i],
                 Turns(fp, log, shorts, sfs, i), writeThread);
    }
  }

  lemma TurnTracks(fp: Parms, read: Read, sf: nat, short: bool, late: Late, late': Late,
                   tries: seq<Option<Flag>>, w: Write, events: seq<Event>, writeThread: bool)
    requires Valid(fp) && sf < 10 && Controlled(fp, read, sf, short, late, late', w, writeThread)
    requires Tracks(late, tries, events, writeThread)
    ensures Tracks(late', tries + Try(w), events + Turn(fp, read, sf, short), writeThread)
  {
    TurnControlled(fp, read, sf, short, late, late', w, events, writeThread);
  }

  lemma TurnControlled(fp: Parms, read: Read, sf: nat, short: bool, late: Late, late': Late, w: Write,
                       events: seq<Event>, writeThread: bool)
    requires Valid(fp) && sf < 10 && late == StateAfter(events, writeThread)
    requires Controlled(fp, read, sf, short, late, late', w, writeThread)
    ensures late' == StateAfter(events + Turn(fp, read, sf, short), writeThread)
    ensures Outputs(events + Turn(fp, read, sf, short), writeThread)
         == Outputs(events, writeThread) + Try(w)
  {
    var fault, calls := read.rxs != fp.samplesPerTti, TxEvents(fp, sf, short);
    var first := if fault then [RxFault] else [];
    assert events + (first + calls) == events + first + calls;
    FaultHeard(events, fault, writeThread);
    if w.sf == UL {
      assert events + first + calls == events + first;
    } else {
      assert calls == [calls[0]];
      Snoc(events + first, calls[0], writeThread);
    }
  }

  lemma FaultHeard(events: seq<Event>, fault: bool, writeThread: bool)
    ensures var events' := events + if fault then [RxFault] else [];
      && StateAfter(events', writeThread) == (if fault then Terminate else StateAfter(events, writeThread))
      && Outputs(events', writeThread) == Outputs(events, writeThread)
  {
    if fault { Snoc(events, RxFault, writeThread); } else { assert events + [] == events; }
  }

  /** In a run without faults and commands the calls are those of consecutive subframes. */
  lemma {:induction false} CleanTurns(fp: Parms, log: seq<Read>, shorts: seq<bool>, sfs: seq<Subframe>,
                                      ahead: nat, n: nat)
    requires Valid(fp) && fp.duplex == TDD && n <= |log| == |shorts| == |sfs| && Clean(fp, log, shorts)
    requires forall i :: 0 <= i < |sfs| ==> sfs[i] == SfOf(ahead + i)
    ensures Turns(fp, log, shorts, sfs, n) == Calls(fp.pattern, ahead, n)
  {
    if n > 0 {
      var i := n - 1;
      CleanTurns(fp, log, shorts, sfs, ahead, i);
      CleanTurn(fp, log[i], sfs[i], shorts[i], ahead + i);
    }
  }

  lemma CleanTurn(fp: Parms, read: Read, sf: Subframe, short: bool, a: nat)
    requires Valid(fp) && fp.duplex == TDD && read.rxs == fp.samplesPerTti && !short && sf == SfOf(a)
    ensures Turn(fp, read, sf, short) == CallFor(FlagAt(fp.pattern, a))
  {
    assert Before(fp.pattern, sf) == SubframeSelect(fp, SfBefore(sf));
  }

  /** Nothing goes wrong and no command comes. */
  predicate Clean(fp: Parms, log: seq<Read>, shorts: seq<bool>)
    requires |log| == |shorts|
  {
    forall i :: 0 <= i < |log| ==> log[i].rxs == fp.samplesPerTti && log[i].cmd.None? && !shorts[i]
  }

  /** In FDD every subframe of such a run writes, and always in the middle of the burst. */
  lemma {:induction false} CleanFddRun(fp: Parms, log: seq<Read>, shorts: seq<bool>, sfs: seq<Subframe>, n: nat,
                                       writeThread: bool)
    requires Valid(fp) && fp.duplex == FDD && n <= |log| == |shorts| == |sfs| && Clean(fp, log, shorts)
    ensures StateAfter(Turns(fp, log, shorts, sfs, n), writeThread) == Normal
    ensures Outputs(Turns(fp, log, shorts, sfs, n), writeThread) == Middles(n)
  {
    if n > 0 {
      var i := n - 1;
      CleanFddRun(fp, log, shorts, sfs, i, writeThread);
      FddTurn(fp, log[i], sfs[i], shorts[i]);
      MiddleCall(Turns(fp, log, shorts, sfs, i), i, writeThread);
    }
  }

  function Middles(n: nat): (outs: seq<Option<Flag>>)
    ensures |outs| == n && forall i :: 0 <= i < n ==> outs[i] == Some(BurstMiddle)
  {
    seq(n, _ => Some(BurstMiddle))
  }

  lemma FddTurn(fp: Parms, read: Read, sf: Subframe, short: bool)
    requires Valid(fp) && fp.duplex == FDD && read.rxs == fp.samplesPerTti && !short
    ensures Turn(fp, read, sf, short) == [Tx(BurstMiddle, false)]
  {
  }

  lemma MiddleCall(events: seq<Event>, n: nat, writeThread: bool)
    requires StateAfter(events, writeThread) == Normal && Outputs(events, writeThread) == Middles(n)
    ensures StateAfter(events + [Tx(BurstMiddle, false)], writeThread) == Normal
    ensures Outputs(events + [Tx(BurstMiddle, false)], writeThread) == Middles(n + 1)
  {
    Snoc(events, Tx(BurstMiddle, false), writeThread);
    assert Middles(n + 1) == Middles(n) + [Some(BurstMiddle)];
  }

  /** So the START and END flags that the thread writes in such a run alternate. */
  lemma CleanRunBracketed(fp: Parms, log: seq<Read>, shorts: seq<bool>, ahead: nat, emulate: bool, n: nat,
                          writeThread: bool)
    requires Valid(fp) && fp.duplex == TDD && BurstShaped(fp.pattern) && n <= |log| == |shorts|
    requires Clean(fp, log, shorts)
    ensures var sfs := TxSubframes(log, ahead, fp.samplesPerTti, emulate);
      var outs := Outputs(Turns(fp, log, shorts, sfs, n), writeThread);
      MarksOf(outs) == Marks(fp.pattern, ahead, n) && Alternates(MarksOf(outs))
  {
    var sfs := TxSubframes(log, ahead, fp.samplesPerTti, emulate);
    forall i | 0 <= i < |sfs| ensures sfs[i] == SfOf(ahead + i) {
      PlainClock(log, i, fp.samplesPerTti, emulate);
    }
    CleanTurns(fp, log, shorts, sfs, ahead, n);
    StartBracketed(fp.pattern, ahead, n, writeThread);
  }
}
