/** Transmit timestamps rebuilt from wrapped frame numbers: the remote unit adds 1024 frames whenever
    it receives frame 0, subframe 0. */
module Unwrap {
  import opened FrameParms
  import opened Timing

  /** The transmit state of `fh_if4p5_north_asynch_in`. */
  class NorthReceiver {
    var frameTxUnwrap: nat
    var frameTx: nat
    var ttiTx: nat
    var timestampTx: nat

    constructor()
      ensures frameTxUnwrap == 0
    {
      frameTxUnwrap, frameTx, ttiTx, timestampTx := 0, 0, 0, 0;
    }

    /** A subframe has been received completely. */
    method SubframeReceived(frame: nat, tti: nat, spt: nat)
      modifies this
      ensures frameTxUnwrap == old(frameTxUnwrap) + (if frame == 0 && tti == 0 then 1024 else 0)
      ensures frameTx == frame && ttiTx == tti
      ensures timestampTx == ((frame + frameTxUnwrap) * 10 + tti) * spt
    {
      ttiTx := tti;
      frameTx := frame;
      if frame == 0 && tti == 0 { frameTxUnwrap := frameTxUnwrap + 1024; }
      timestampTx := ((frame + frameTxUnwrap) * 10 + tti) * spt;
    }
  }

  /** Subframes in one cycle of the frame number. */
  const HYPERFRAME: nat := 10240

  predicate Increasing(stream: seq<nat>) {
    forall i, j :: 0 <= i < j < |stream| ==> stream[i] < stream[j]
  }

  /** No subframe (0,0) lies strictly between two subframes. */
  ghost predicate NoneBetween(x: nat, y: nat) {
    forall m :: x < m < y ==> m % HYPERFRAME != 0
  }

  /** How many subframes (0,0) are lost between two subframes received one after the other. */
  function LostBetween(x: nat, y: nat): (n: nat)
    requires x < y
    ensures n == 0 <==> NoneBetween(x, y)
  {
    var n := y / HYPERFRAME - x / HYPERFRAME - (if y % HYPERFRAME == 0 then 1 else 0);
    var m := (x / HYPERFRAME + 1) * HYPERFRAME;
    assert m % HYPERFRAME == 0 && x < m;
    assert n > 0 ==> m < y;
    assert forall m :: x < m < y && m % HYPERFRAME == 0 ==> x / HYPERFRAME < m / HYPERFRAME <= y / HYPERFRAME;
    n
  }

  function Lost(stream: seq<nat>, i: nat): nat
    requires Increasing(stream) && i < |stream|
  {
    if i == 0 then 0 else Lost(stream, i - 1) + LostBetween(stream[i - 1], stream[i])
  }

  /** A decomposition that lines a subframe number up with its wrapped frame and subframe. */
  lemma Wrapped(a: nat)
    ensures FrameOf(a) * 10 + SfOf(a) == a % HYPERFRAME
    ensures FrameOf(a) == 0 && SfOf(a) == 0 <==> a % HYPERFRAME == 0
  {
    var h, w := a / HYPERFRAME, a % HYPERFRAME;
    assert a == HYPERFRAME * h + w;
    assert a / 10 == 1024 * h + w / 10;
    assert (a / 10) % 1024 == w / 10;
  }

  /** Received subframes (0,0) among the first `i + 1`. */
  function Wraps(stream: seq<nat>, i: nat): nat
    requires i < |stream|
  {
    (if i == 0 then 0 else Wraps(stream, i - 1)) + (if stream[i] % HYPERFRAME == 0 then 1 else 0)
  }

  /** The transmit time of the `i`-th received subframe, in subframes. */
  function Unit(stream: seq<nat>, i: nat): nat
    requires i < |stream|
  {
    stream[i] % HYPERFRAME + HYPERFRAME * Wraps(stream, i)
  }

  /** The timestamps of a stream of received subframes. */
  method UnwrapStream(stream: seq<nat>, spt: nat) returns (stamps: seq<nat>)
    requires spt > 0
    ensures |stamps| == |stream|
    ensures forall i :: 0 <= i < |stream| ==>
      FrameOfStamp(stamps[i], spt) == FrameOf(stream[i]) && TtiOfStamp(stamps[i], spt) == SfOf(stream[i])
    ensures forall i :: 0 <= i < |stream| ==> stamps[i] == Unit(stream, i) * spt
    ensures Increasing(stream) && NoneLost(stream) ==> forall i, j :: 0 <= i < j < |stream| ==>
      stamps[i] < stamps[j] && stamps[j] - stamps[i] == (stream[j] - stream[i]) * spt
  {
    var ru := new NorthReceiver();
    stamps := [];
    for i := 0 to |stream|
      invariant |stamps| == i
      invariant ru.frameTxUnwrap == if i == 0 then 0 else 1024 * Wraps(stream, i - 1)
      invariant forall k :: 0 <= k < i ==> stamps[k] == Unit(stream, k) * spt
    {
      var a := stream[i];
      Wrapped(a);
      ru.SubframeReceived(FrameOf(a), SfOf(a), spt);
      assert (ru.frameTx + ru.frameTxUnwrap) * 10 + ru.ttiTx == Unit(stream, i);
      stamps := stamps + [ru.timestampTx];
    }
    forall i | 0 <= i < |stream|
      ensures FrameOfStamp(stamps[i], spt) == FrameOf(stream[i]) && TtiOfStamp(stamps[i], spt) == SfOf(stream[i])
    {
      UnitDecodes(stream, i);
      StampNames(Unit(stream, i), 0, spt);
    }
    if Increasing(stream) && NoneLost(stream) {
      forall i, j | 0 <= i < j < |stream|
        ensures stamps[i] < stamps[j] && stamps[j] - stamps[i] == (stream[j] - stream[i]) * spt
      {
        StampsMeasure(stream, i, j, spt);
      }
    }
  }

  /** Every transmit time decodes to the frame and subframe received. */
  lemma UnitDecodes(stream: seq<nat>, i: nat)
    requires i < |stream|
    ensures FrameOf(Unit(stream, i)) == FrameOf(stream[i])
    ensures SfOf(Unit(stream, i)) == SfOf(stream[i])
  {
    var x := stream[i] % HYPERFRAME;
    ModOf(x, Wraps(stream, i));
    Wrapped(Unit(stream, i));
    Wrapped(stream[i]);
    DigitsUnique(FrameOf(Unit(stream, i)), SfOf(Unit(stream, i)), FrameOf(stream[i]), SfOf(stream[i]));
  }

  lemma ModOf(x: nat, w: nat)
    requires x < HYPERFRAME
    ensures (x + HYPERFRAME * w) % HYPERFRAME == x
  {
  }

  lemma DigitsUnique(f: nat, s: nat, g: nat, t: nat)
    requires s < 10 && t < 10 && f * 10 + s == g * 10 + t
    ensures f == g && s == t
  {
  }

  /** Across any number of wraps, the transmit times of an in-order stream measure elapsed subframes,
      less one hyperframe for each lost (0,0). */
  lemma {:induction false} UnitMeasures(stream: seq<nat>, i: nat)
    requires Increasing(stream) && i < |stream|
    ensures Unit(stream, i) + HYPERFRAME * Lost(stream, i) == Unit(stream, 0) + (stream[i] - stream[0])
  {
    if i > 0 {
      UnitMeasures(stream, i - 1);
      IncrementOf(stream[i - 1], stream[i], Wraps(stream, i - 1));
    }
  }

  /** No subframe (0,0) is lost anywhere in the stream. */
  ghost predicate NoneLost(stream: seq<nat>) {
    forall i :: 0 <= i < |stream| - 1 ==> NoneBetween(stream[i], stream[i + 1])
  }

  lemma {:induction false} NothingLost(stream: seq<nat>, i: nat)
    requires Increasing(stream) && NoneLost(stream) && i < |stream|
    ensures Lost(stream, i) == 0
  {
    if i > 0 {
      NothingLost(stream, i - 1);
      assert NoneBetween(stream[i - 1], stream[i - 1 + 1]);
    }
  }

  /** The timestamps of an in-order stream that loses no (0,0) are strictly increasing, and any two of them differ
      by exactly the elapsed time, across any number of wraps. */
  lemma StampsMeasure(stream: seq<nat>, i: nat, j: nat, spt: nat)
    requires Increasing(stream) && NoneLost(stream) && i < j < |stream| && spt > 0
    ensures Unit(stream, j) * spt - Unit(stream, i) * spt == (stream[j] - stream[i]) * spt
    ensures Unit(stream, i) * spt < Unit(stream, j) * spt
  {
    UnitMeasures(stream, i);
    UnitMeasures(stream, j);
    NothingLost(stream, i);
    NothingLost(stream, j);
    var d := stream[j] - stream[i];
    assert Unit(stream, j) == Unit(stream, i) + d;
    Distribute(Unit(stream, i), d, spt);
    MulAtLeast(spt, d);
  }

  /** One increment is the elapsed time exactly when no (0,0) is lost in between; then it is positive. */
  lemma IncrementExact(stream: seq<nat>, i: nat)
    requires Increasing(stream) && i + 1 < |stream|
    ensures Unit(stream, i + 1) == Unit(stream, i) + (stream[i + 1] - stream[i]) <==>
      NoneBetween(stream[i], stream[i + 1])
  {
    IncrementOf(stream[i], stream[i + 1], Wraps(stream, i));
  }

  /** The increment between two subframes received one after the other, with `w` wraps before. */
  lemma IncrementOf(x: nat, y: nat, w: nat)
    requires x < y
    ensures (y % HYPERFRAME + HYPERFRAME * (if y % HYPERFRAME == 0 then w + 1 else w))
            - (x % HYPERFRAME + HYPERFRAME * w)
            == y - x - HYPERFRAME * LostBetween(x, y)
  {
    assert x == HYPERFRAME * (x / HYPERFRAME) + x % HYPERFRAME;
    assert y == HYPERFRAME * (y / HYPERFRAME) + y % HYPERFRAME;
  }
}
