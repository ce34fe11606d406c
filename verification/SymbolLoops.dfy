/** The three ways the fronthaul code decides that a subframe is complete: OR-ing symbol bits until
    the mask equals the full mask, clearing bits until none is left, and OR-ing while the mask is
    below the full mask.  Each loop is specified by the exact packet on which it stops. */
module SymbolLoops {
  import opened BitMasks
  import opened FrameParms

  datatype Kind = Symbol(number: nat) | Tick | Prach(level: nat) | Other

  datatype Packet = Packet(frame: nat, sf: Subframe, kind: Kind)

  /** The symbol numbers carried by a packet sequence. */
  ghost function Seen(p: seq<Packet>): (s: set<nat>) {
    set x | x in p && x.kind.Symbol? :: x.kind.number
  }

  /** The PRACH levels carried by a packet sequence. */
  ghost function PrachSeen(p: seq<Packet>): set<nat> {
    set x | x in p && x.kind.Prach? :: x.kind.level
  }

  lemma SeenSnoc(p: seq<Packet>, x: Packet)
    ensures Seen(p + [x]) == Seen(p) + (if x.kind.Symbol? then {x.kind.number} else {})
    ensures PrachSeen(p + [x]) == PrachSeen(p) + (if x.kind.Prach? then {x.kind.level} else {})
  {
    forall y ensures y in p + [x] <==> y in p || y == x { }
    assert x.kind.Symbol? ==> x in p + [x];
    assert x.kind.Prach? ==> x in p + [x];
  }

  // What each loop's guard says about the packets received so far, for `n` symbols per subframe.

  /** `mask != full` is false. */
  ghost predicate EqualsFull(p: seq<Packet>, n: nat) {
    Seen(p) == Range(n)
  }

  /** The cleared mask is zero. */
  ghost predicate AllCleared(p: seq<Packet>, n: nat) {
    Range(n) <= Seen(p)
  }

  /** `mask < full` is false. */
  ghost predicate NotBelowFull(p: seq<Packet>, n: nat) {
    !(Seen(p) < Range(n))
  }

  /** The symbol numbers received are exactly those below `n`. */
  ghost predicate Covers(numbers: seq<nat>, n: nat) {
    (set x | x in numbers) == Range(n)
  }

  /** `fh_if4p5_north_in` takes the symbol number of every packet, whatever its type, until the mask equals the
      full mask. */
  method NorthIn(n: nat, numbers: seq<nat>) returns (consumed: nat, complete: bool)
    ensures complete ==> 0 < consumed <= |numbers| && Covers(numbers[..consumed], n)
    ensures complete ==> forall k :: 0 < k < consumed ==> !Covers(numbers[..k], n)
    ensures !complete ==> forall k :: 0 < k <= |numbers| ==> !Covers(numbers[..k], n)
  {
    var mask := 0;
    var full := Full(n);
    consumed, complete := 0, false;
    ZeroIffEmpty(0);
    while consumed < |numbers| && !complete
      invariant consumed <= |numbers|
      invariant Bits(mask) == set x | x in numbers[..consumed]
      invariant complete ==> 0 < consumed && Covers(numbers[..consumed], n)
      invariant forall k :: 0 < k < consumed ==> !Covers(numbers[..k], n)
      invariant !complete && 0 < consumed ==> !Covers(numbers[..consumed], n)
      decreases |numbers| - consumed, !complete
    {
      var x := numbers[consumed];
      assert numbers[..consumed + 1] == numbers[..consumed] + [x];
      SetAndClear(mask, x);
      mask := Or(mask, Pow2(x));
      consumed := consumed + 1;
      FullIffRange(mask, n);
      complete := mask == full;
    }
  }

  /** On packets that carry symbols this is the equality guard. */
  lemma CoversIsEqualsFull(p: seq<Packet>, numbers: seq<nat>, n: nat)
    requires |numbers| == |p| && forall i :: 0 <= i < |p| ==> p[i].kind == Symbol(numbers[i])
    ensures Covers(numbers, n) <==> EqualsFull(p, n)
  {
    forall x ensures x in Seen(p) <==> x in numbers {
      if x in numbers {
        var i :| 0 <= i < |numbers| && numbers[i] == x;
        assert p[i] in p;
      }
    }
  }

  datatype Outcome = Received(consumed: nat) | TimingExit(consumed: nat) | Blocked

  /** Every packet belongs to the given subframe. */
  predicate AllOf(p: seq<Packet>, frame: nat, sf: nat) {
    forall x :: x in p ==> x.frame == frame && x.sf == sf
  }

  /** Every symbol and every announced PRACH level has been seen. */
  ghost predicate Ready(p: seq<Packet>, n: nat, levels: set<nat>) {
    AllCleared(p, n) && levels <= PrachSeen(p)
  }

  /** The two clear-down masks after the packets `p`. */
  ghost predicate Cleared(mask: nat, prach: nat, p: seq<Packet>, n: nat, levels: set<nat>) {
    Bits(mask) == Range(n) - Seen(p) && Bits(prach) == levels - PrachSeen(p)
  }

  /** Clears the bits one packet stands for. */
  method ClearOne(mask: nat, prach: nat, x: Packet, ghost p: seq<Packet>, ghost n: nat, ghost levels: set<nat>)
    returns (mask': nat, prach': nat, pending: bool)
    requires Cleared(mask, prach, p, n, levels)
    ensures Cleared(mask', prach', p + [x], n, levels)
    ensures pending <==> !Ready(p + [x], n, levels)
  {
    SeenSnoc(p, x);
    mask', prach' := mask, prach;
    if x.kind.Symbol? {
      SetAndClear(mask, x.kind.number);
      mask' := AndNot(mask, Pow2(x.kind.number));
    } else if x.kind.Prach? {
      SetAndClear(prach, x.kind.level);
      prach' := AndNot(prach, Pow2(x.kind.level));
    }
    ZeroIffEmpty(mask');
    ZeroIffEmpty(prach');
    pending := mask' > 0 || prach' > 0;
  }

  /** `fh_if4p5_south_asynch_in`: its thread's receive state. */
  class AsynchReceiver {
    var firstRx: bool
    var frameRx: nat
    var ttiRx: nat

    constructor()
      ensures firstRx
    {
      firstRx, frameRx, ttiRx := true, 0, 0;
    }

    /** Receives one subframe.  The very first packet ever fixes the expected frame and subframe;
        afterwards a packet of another subframe is a timing exit.  The loop stops at the first packet
        after which every symbol and every announced PRACH level has been seen. */
    method SouthAsynchIn(n: nat, isPrach: (nat, nat) -> nat, frame: nat, subframe: nat, input: seq<Packet>)
      returns (out: Outcome, frame': nat, subframe': nat)
      modifies this
      ensures (frame', subframe') ==
        if old(firstRx) && input != [] then (input[0].frame, input[0].sf) else (frame, subframe)
      ensures firstRx == (old(firstRx) && input == [])
      ensures out.Received? ==>
        && 0 < out.consumed <= |input|
        && AllOf(input[..out.consumed], frame', subframe')
        && Ready(input[..out.consumed], n, Bits(isPrach(frame', subframe')))
        && frameRx == frame' && ttiRx == subframe'
      ensures out.TimingExit? ==>
        && 0 < out.consumed <= |input|
        && AllOf(input[..out.consumed - 1], frame', subframe')
        && !AllOf(input[..out.consumed], frame', subframe')
      ensures out.Blocked? ==> AllOf(input, frame', subframe')
      ensures forall k :: 0 < k < (if out.Blocked? then |input| + 1 else out.consumed) ==>
        !Ready(input[..k], n, Bits(isPrach(frame', subframe')))
    {
      frame', subframe' := frame, subframe;
      if input == [] {
        return Blocked, frame, subframe;
      }
      if firstRx {
        frame', subframe' := input[0].frame, input[0].sf;
        firstRx := false;
      }
      var mask, prach, k := Full(n), isPrach(input[0].frame, input[0].sf), 0;
      ghost var levels := Bits(prach);
      FullBits(n);
      while k < |input|
        invariant k <= |input|
        invariant !firstRx
        invariant AllOf(input[..k], frame', subframe')
        invariant k > 0 ==> levels == Bits(isPrach(frame', subframe'))
        invariant Cleared(mask, prach, input[..k], n, levels)
        invariant forall j :: 0 < j <= k ==> !Ready(input[..j], n, levels)
      {
        var x := input[k];
        assert input[..k + 1] == input[..k] + [x];
        frameRx, ttiRx := x.frame, x.sf;
        if frameRx != frame' || ttiRx != subframe' {
          assert x in input[..k + 1];
          return TimingExit(k + 1), frame', subframe';
        }
        var pending;
        mask, prach, pending := ClearOne(mask, prach, x, input[..k], n, levels);
        k := k + 1;
        if !pending {
          return Received(k), frame', subframe';
        }
      }
      assert input[..|input|] == input;
      return Blocked, frame', subframe';
    }
  }

  /** On symbols in range the three guards agree on every prefix. */
  lemma GuardsAgree(p: seq<Packet>, n: nat)
    requires forall x :: x in p && x.kind.Symbol? ==> x.kind.number < n
    ensures EqualsFull(p, n) <==> AllCleared(p, n)
    ensures AllCleared(p, n) <==> NotBelowFull(p, n)
  {
    assert Seen(p) <= Range(n);
  }

  /** One symbol number out of range separates them: the comparison guard stops at once, the equality
      guard never stops, whatever follows. */
  lemma OutOfRangeSeparates(p: seq<Packet>, more: seq<Packet>, x: Packet, n: nat)
    requires x in p && x.kind.Symbol? && x.kind.number >= n
    ensures NotBelowFull(p, n)
    ensures !EqualsFull(p + more, n)
  {
    assert x.kind.number in Seen(p);
    assert x in p + more;
    assert x.kind.number in Seen(p + more);
  }
}
