/** Frame and subframe numbers as functions of a sample timestamp, for reception and transmission. */
module Timing {
  import opened FrameParms

  // ---------------------------------------------------------------- C integer operators

  /** `a / b` on unsigned values, by repeated subtraction: proofs about sample counts then need no
      non-linear division. */
  function Quot(a: nat, b: nat): nat
    requires b > 0
    decreases a
  {
    if a < b then 0 else 1 + Quot(a - b, b)
  }

  lemma {:induction false} QuotOf(q: nat, r: nat, b: nat)
    requires r < b
    ensures q * b + r >= 0
    ensures Quot(q * b + r, b) == q
  {
    if q > 0 {
      assert q * b + r == (q - 1) * b + r + b;
      QuotOf(q - 1, r, b);
    }
  }

  /** Every timestamp has a subframe and an offset within it. */
  lemma {:induction false} Split(t: nat, b: nat) returns (q: nat, r: nat)
    requires b > 0
    ensures t == q * b + r && r < b && q == Quot(t, b)
    decreases t
  {
    if t < b {
      q, r := 0, t;
    } else {
      var p;
      p, r := Split(t - b, b);
      q := p + 1;
    }
  }

  /** It is the built-in quotient. */
  lemma QuotIsDivision(a: nat, b: nat)
    requires b > 0
    ensures Quot(a, b) == a / b
  {
    var q, r := Split(a, b);
    var p := a / b;
    assert b * (p - q) == p * b - q * b;
    if p > q {
      MulAtLeast(b, p - q);
    } else if p < q {
      MulAtLeast(b, q - p);
    }
  }

  lemma MulAtLeast(s: int, k: int)
    requires s > 0 && k >= 1
    ensures s * k >= s
  {
  }

  /** `/` on signed integers truncates toward zero. */
  function CDiv(a: int, b: nat): int
    requires b > 0
  {
    if a >= 0 then Quot(a, b) else 0 - Quot(-a, b)
  }

  /** `x % 10` on signed integers takes the sign of `x`. */
  function CRem10(x: int): int {
    if x >= 0 then x % 10 else -((-x) % 10)
  }

  lemma RemainderOfTen(x: int)
    ensures x == 10 * CDiv(x, 10) + CRem10(x)
    ensures -10 < CRem10(x) < 10 && (if x >= 0 then CRem10(x) >= 0 else CRem10(x) <= 0)
  {
    var r := TruncatedDivision(x, 10);
  }

  /** `x & 1023` in two's complement. */
  function And1023(x: int): nat {
    x % 1024
  }

  /** The quotient of C: what is left over is shorter than the divisor and has the sign of the dividend. */
  lemma TruncatedDivision(a: int, b: nat) returns (r: int)
    requires b > 0
    ensures a == CDiv(a, b) * b + r && 0 - b < r < b && (if a >= 0 then r >= 0 else r <= 0)
  {
    var q;
    if a >= 0 {
      q, r := Split(a, b);
    } else {
      q, r := Split(-a, b);
      assert (0 - q) * b == -(q * b);
      r := -r;
    }
  }

  /** `(timestamp / (samples_per_tti * 10)) & 1023`. */
  function FrameOfStamp(t: int, spt: nat): nat
    requires spt > 0
  {
    And1023(CDiv(t, spt * 10))
  }

  /** `(timestamp / samples_per_tti) % 10`. */
  function TtiOfStamp(t: int, spt: nat): int
    requires spt > 0
  {
    CRem10(CDiv(t, spt))
  }

  /** A non-negative timestamp names the absolute subframe it falls in. */
  lemma StampNames(q: nat, r: nat, spt: nat)
    requires r < spt
    ensures FrameOfStamp(q * spt + r, spt) == FrameOf(q)
    ensures TtiOfStamp(q * spt + r, spt) == SfOf(q)
  {
    QuotOf(q, r, spt);
    var p, d := q / 10, q % 10;
    var r' := d * spt + r;
    TenSplit(p, d, spt);
    MulBound(d, spt);
    QuotOf(p, r', spt * 10);
  }

  lemma TenSplit(p: nat, d: nat, spt: nat)
    ensures (10 * p + d) * spt == p * (spt * 10) + d * spt
  {
  }

  lemma MulBound(d: nat, spt: nat)
    requires d <= 9
    ensures d * spt <= 9 * spt
  {
  }

  // ---------------------------------------------------------------- transmission timing

  /** The frame and subframe to transmit, as `wakeup_rxtx`, `eNB_top` and `rx_rf` compute them. */
  function TxOf(frameRx: nat, sfRx: nat, ahead: nat): (nat, nat) {
    (if sfRx > 9 - ahead then And1023(frameRx + 1) else frameRx, (sfRx + ahead) % 10)
  }

  /** They are those of the absolute subframe `ahead` after subframe `q`. */
  predicate TxAgrees(q: nat, ahead: nat) {
    TxOf(FrameOf(q), SfOf(q), ahead) == (FrameOf(q + ahead), SfOf(q + ahead))
  }

  /** Exactly when one subframe agrees: the carry of `sf + ahead` into the frame, modulo 1024, must be
      what the single comparison adds. */
  lemma TxAgreesIff(q: nat, ahead: nat)
    ensures TxAgrees(q, ahead) <==>
      ((SfOf(q) + ahead) / 10) % 1024 == (if SfOf(q) + ahead > 9 then 1 else 0)
  {
    var f, sf := q / 10, q % 10;
    var carry := (sf + ahead) / 10;
    assert q + ahead == 10 * f + (sf + ahead);
    assert (q + ahead) / 10 == f + carry;
    assert SfOf(q + ahead) == (sf + ahead) % 10;
    SumMod(f, carry);
    SumMod(f, 1);
  }

  lemma SumMod(f: nat, c: nat)
    ensures (f + c) % 1024 == (f % 1024 + c % 1024) % 1024
  {
  }

  /** The transmit frame and subframe are right for every reception subframe exactly for a lead of at
      most ten subframes (and its aliases one hyperframe further on). */
  lemma TxTimingExact(ahead: nat)
    ensures (forall q: nat :: TxAgrees(q, ahead)) <==> ahead <= 10 || ahead % 10240 == 10
  {
    if ahead <= 10 || ahead % 10240 == 10 {
      forall q: nat ensures TxAgrees(q, ahead) { ShortLead(q, ahead); }
    } else {
      LeadTooLong(ahead);
    }
  }

  /** The branch refines the transmit timestamp `timestamp_rx + sf_ahead * samples_per_tti`, for every
      reception timestamp (subframe `q`, offset `r`; see `Split`): the transmit frame and subframe are the quotients
      of that timestamp, across the 1023-to-0 wrap. */
  lemma TxRefinesStamp(q: nat, r: nat, spt: nat, ahead: nat)
    requires r < spt && ahead <= 10
    ensures TtiOfStamp(q * spt + r, spt) >= 0
    ensures TxOf(FrameOfStamp(q * spt + r, spt), TtiOfStamp(q * spt + r, spt), ahead) ==
      (FrameOfStamp((q + ahead) * spt + r, spt), TtiOfStamp((q + ahead) * spt + r, spt))
  {
    StampNames(q, r, spt);
    StampNames(q + ahead, r, spt);
    ShortLead(q, ahead);
  }

  lemma ShortLead(q: nat, ahead: nat)
    requires ahead <= 10 || ahead % 10240 == 10
    ensures TxAgrees(q, ahead)
  {
    TxAgreesIff(q, ahead);
    CarryOfLead(SfOf(q), ahead);
  }

  lemma Distribute(q: int, k: int, spt: int)
    ensures (q + k) * spt == q * spt + k * spt
  {
  }

  lemma CarryOfLead(sf: nat, ahead: nat)
    requires sf < 10 && (ahead <= 10 || ahead % 10240 == 10)
    ensures ((sf + ahead) / 10) % 1024 == (if sf + ahead > 9 then 1 else 0)
  {
    if ahead > 10 {
      var k := ahead / 10240;
      assert ahead == 10240 * k + 10;
      assert (sf + ahead) / 10 == 1024 * k + 1;
    }
  }

  lemma LeadTooLong(ahead: nat)
    requires ahead > 10 && ahead % 10240 != 10
    ensures !TxAgrees(0, ahead) || !TxAgrees(9, ahead)
  {
    TxAgreesIff(0, ahead);
    TxAgreesIff(9, ahead);
    var p, r := ahead / 10, ahead % 10;
    assert ahead == 10 * p + r;
    assert (9 + ahead) / 10 == if r == 0 then p else p + 1;
  }
}
