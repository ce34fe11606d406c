/** Unsigned masks as the C code builds them with `|`, `& ~` and `1 << n`, and the bridge to the set
    of bit positions they stand for.  Masks are natural numbers; the widths the program uses (16
    symbols, fewer than 31 radio units) never overflow a 32-bit word. */
module BitMasks {

  /** `1 << n`. */
  function Pow2(n: nat): (r: nat)
    ensures r >= 1
  {
    if n == 0 then 1 else 2 * Pow2(n - 1)
  }

  /** `(1 << n) - 1`. */
  function Full(n: nat): nat {
    Pow2(n) - 1
  }

  /** Whether bit `i` of `m` is set. */
  predicate Bit(m: nat, i: nat)
    decreases i
  {
    if i == 0 then m % 2 == 1 else Bit(m / 2, i - 1)
  }

  /** `a | b`. */
  function Or(a: nat, b: nat): nat
    decreases a + b
  {
    if a == 0 && b == 0 then 0
    else 2 * Or(a / 2, b / 2) + (if a % 2 == 1 || b % 2 == 1 then 1 else 0)
  }

  /** `a & ~b`. */
  function AndNot(a: nat, b: nat): nat
    decreases a + b
  {
    if a == 0 && b == 0 then 0
    else 2 * AndNot(a / 2, b / 2) + (if a % 2 == 1 && b % 2 == 0 then 1 else 0)
  }

  lemma {:induction false} ZeroBit(i: nat)
    ensures !Bit(0, i)
  {
    if i > 0 { ZeroBit(i - 1); }
  }

  lemma {:induction false} OrBit(a: nat, b: nat, i: nat)
    ensures Bit(Or(a, b), i) <==> Bit(a, i) || Bit(b, i)
    decreases i
  {
    if a == 0 && b == 0 {
      ZeroBit(i);
    } else if i > 0 {
      OrBit(a / 2, b / 2, i - 1);
    }
  }

  lemma {:induction false} AndNotBit(a: nat, b: nat, i: nat)
    ensures Bit(AndNot(a, b), i) <==> Bit(a, i) && !Bit(b, i)
    decreases i
  {
    if a == 0 && b == 0 {
      ZeroBit(i);
    } else if i > 0 {
      AndNotBit(a / 2, b / 2, i - 1);
    }
  }

  lemma {:induction false} Pow2Bit(n: nat, i: nat)
    ensures Bit(Pow2(n), i) <==> i == n
    decreases n
  {
    if n == 0 {
      if i > 0 { ZeroBit(i - 1); }
    } else if i > 0 {
      Pow2Bit(n - 1, i - 1);
    }
  }

  lemma {:induction false} FullBit(n: nat, i: nat)
    ensures Bit(Full(n), i) <==> i < n
    decreases n
  {
    if n == 0 {
      ZeroBit(i);
    } else if i > 0 {
      assert Full(n) / 2 == Full(n - 1);
      FullBit(n - 1, i - 1);
    }
  }

  /** A set bit sits below the value of the mask. */
  lemma {:induction false} BitBound(m: nat, i: nat)
    requires Bit(m, i)
    ensures i < m
  {
    if i > 0 { BitBound(m / 2, i - 1); }
  }

  /** The set of positions a mask stands for. */
  ghost function Bits(m: nat): (s: set<nat>)
    ensures forall i: nat :: i in s <==> Bit(m, i)
  {
    assert forall i: nat :: Bit(m, i) ==> i < m by {
      forall i: nat | Bit(m, i) ensures i < m { BitBound(m, i); }
    }
    set i: nat | i < m && Bit(m, i)
  }

  /** The positions below `n`. */
  ghost function Range(n: nat): (s: set<nat>)
    ensures forall i: nat :: i in s <==> i < n
  {
    if n == 0 then {} else Range(n - 1) + {n - 1}
  }

  /** `m | (1 << n)` adds position `n`, `m & ~(1 << n)` removes it. */
  lemma SetAndClear(m: nat, n: nat)
    ensures Bits(Or(m, Pow2(n))) == Bits(m) + {n}
    ensures Bits(AndNot(m, Pow2(n))) == Bits(m) - {n}
  {
    forall i: nat
      ensures i in Bits(Or(m, Pow2(n))) <==> i in Bits(m) + {n}
      ensures i in Bits(AndNot(m, Pow2(n))) <==> i in Bits(m) - {n}
    {
      OrBit(m, Pow2(n), i);
      AndNotBit(m, Pow2(n), i);
      Pow2Bit(n, i);
    }
  }

  lemma FullBits(n: nat)
    ensures Bits(Full(n)) == Range(n)
  {
    forall i: nat ensures i in Bits(Full(n)) <==> i in Range(n) { FullBit(n, i); }
  }

  lemma {:induction false} SomeBit(m: nat) returns (i: nat)
    requires m > 0
    ensures i in Bits(m)
  {
    if m % 2 == 1 {
      i := 0;
    } else {
      var j := SomeBit(m / 2);
      i := j + 1;
    }
  }

  /** The empty mask stands for the empty set. */
  lemma ZeroIffEmpty(m: nat)
    ensures m == 0 <==> Bits(m) == {}
  {
    if m == 0 {
      forall i: nat ensures i !in Bits(m) { ZeroBit(i); }
    } else {
      var i := SomeBit(m);
    }
  }

  /** Positions of the upper half of a mask. */
  lemma HalfBits(m: nat, i: nat)
    ensures i in Bits(m / 2) <==> i + 1 in Bits(m)
    ensures 0 in Bits(m) <==> m % 2 == 1
  {
  }

  /** A mask is determined by its set of positions. */
  lemma {:induction false} Extensional(a: nat, b: nat)
    requires Bits(a) == Bits(b)
    ensures a == b
    decreases a
  {
    ZeroIffEmpty(a);
    ZeroIffEmpty(b);
    if a != 0 {
      forall i: nat ensures i in Bits(a / 2) <==> i in Bits(b / 2) {
        HalfBits(a, i);
        HalfBits(b, i);
      }
      HalfBits(a, 0);
      HalfBits(b, 0);
      Extensional(a / 2, b / 2);
    }
  }

  /** `m == full` says that the positions are exactly those below `n`. */
  lemma FullIffRange(m: nat, n: nat)
    ensures m == Full(n) <==> Bits(m) == Range(n)
  {
    FullBits(n);
    if Bits(m) == Range(n) { Extensional(m, Full(n)); }
  }

  /** The unsigned comparison `m < full` says that the positions are a proper subset of those below
      `n`: one is missing and none at or above `n` is set. */
  lemma {:induction false} BelowFullIff(m: nat, n: nat)
    ensures m < Full(n) <==> Bits(m) < Range(n)
    decreases n
  {
    FullIffRange(m, n);
    if n == 0 {
    } else {
      BelowFullIff(m / 2, n - 1);
      FullIffRange(m / 2, n - 1);
      assert Full(n) == 2 * Full(n - 1) + 1;
      HalfSubset(m, n);
    }
  }

  lemma HalfSubset(m: nat, n: nat)
    requires n > 0
    ensures Bits(m) <= Range(n) <==> Bits(m / 2) <= Range(n - 1)
  {
    forall i: nat ensures i in Bits(m / 2) <==> i + 1 in Bits(m) { HalfBits(m, i); }
    if Bits(m / 2) <= Range(n - 1) {
      forall i | i in Bits(m) ensures i in Range(n) {
        if i > 0 { assert i - 1 in Bits(m / 2); }
      }
    }
    if Bits(m) <= Range(n) {
      forall i | i in Bits(m / 2) ensures i in Range(n - 1) { assert i + 1 in Bits(m); }
    }
  }
}
