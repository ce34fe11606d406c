/** Frame structure shared by the radio-unit code: duplex mode, subframe pattern, and the
    frame/subframe counters modulo 1024 and 10. */
module FrameParms {

  datatype Duplex = FDD | TDD

  datatype SfType = DL | UL | S

  /** A subframe number. */
  type Subframe = n: nat | n < 10

  datatype Parms = Parms(
    duplex: Duplex,
    pattern: seq<SfType>,
    symbolsPerTti: nat,
    ulSymbolsInS: nat,
    samplesPerTti: nat)

  /** What frame initialisation guarantees: ten subframe types, at most sixteen symbols (the symbol
      number travels in four bits), at least one uplink symbol in a special subframe. */
  predicate Valid(fp: Parms) {
    && |fp.pattern| == 10
    && 1 <= fp.symbolsPerTti <= 16
    && 1 <= fp.ulSymbolsInS <= 16
    && 0 < fp.samplesPerTti
  }

  /** `subframe_select`: FDD answers DL for every subframe. */
  function SubframeSelect(fp: Parms, sf: nat): SfType
    requires Valid(fp) && sf < 10
  {
    if fp.duplex == FDD then DL else fp.pattern[sf]
  }

  /** The TDD configurations that `subframe_select` supports. */
  predicate SupportedTdd(config: nat) {
    config == 1 || config == 3 || config == 4 || config == 5
  }

  /** The subframe types `subframe_select` answers for a supported TDD configuration. */
  function TddType(config: nat, sf: nat): SfType
    requires SupportedTdd(config) && sf < 10
  {
    if config == 1 then
      if sf == 0 || sf == 4 || sf == 5 || sf == 9 then DL
      else if sf == 2 || sf == 3 || sf == 7 || sf == 8 then UL
      else S
    else
      var firstDl := if config == 3 then 5 else if config == 4 then 4 else 3;
      if sf < 1 || sf >= firstDl then DL else if sf == 1 then S else UL
  }

  function TddPattern(config: nat): (p: seq<SfType>)
    requires SupportedTdd(config)
    ensures |p| == 10 && forall sf :: 0 <= sf < 10 ==> p[sf] == TddType(config, sf)
  {
    seq(10, sf requires 0 <= sf < 10 => TddType(config, sf))
  }

  /** The uplink-downlink configurations of section 4.2, Table 4.2-2, of 3GPP TS 36.211. */
  function TablePattern(config: nat): (p: seq<SfType>)
    requires config <= 6
    ensures |p| == 10
  {
    if config == 0 then [DL, S, UL, UL, UL, DL, S, UL, UL, UL]
    else if config == 1 then [DL, S, UL, UL, DL, DL, S, UL, UL, DL]
    else if config == 2 then [DL, S, UL, DL, DL, DL, S, UL, DL, DL]
    else if config == 3 then [DL, S, UL, UL, UL, DL, DL, DL, DL, DL]
    else if config == 4 then [DL, S, UL, UL, DL, DL, DL, DL, DL, DL]
    else if config == 5 then [DL, S, UL, DL, DL, DL, DL, DL, DL, DL]
    else [DL, S, UL, UL, UL, DL, S, UL, UL, DL]
  }

  /** What `subframe_select` supports, it answers as the table says. */
  lemma SupportedMatchTable(config: nat)
    requires SupportedTdd(config)
    ensures TddPattern(config) == TablePattern(config)
  {
  }

  // Absolute subframe numbers: subframe `a` of a run has frame number FrameOf(a) and subframe
  // number SfOf(a) on every interface.

  function FrameOf(a: nat): (f: nat)
    ensures f < 1024
  {
    (a / 10) % 1024
  }

  function SfOf(a: nat): (sf: nat)
    ensures sf < 10
  {
    a % 10
  }

  /** The counter update at the head of the `ru_thread` loop. */
  function NextSubframe(frame: nat, subframe: nat): (nat, nat) {
    if subframe == 9 then ((frame + 1) % 1024, 0) else (frame, subframe + 1)
  }

  /** The loop counters follow the absolute subframe number, across every 1024-frame wrap. */
  lemma TickFollows(a: nat)
    ensures NextSubframe(FrameOf(a), SfOf(a)) == (FrameOf(a + 1), SfOf(a + 1))
  {
    if a % 10 == 9 {
      assert (a + 1) / 10 == a / 10 + 1;
      WrapStep(a / 10);
    } else {
      assert (a + 1) / 10 == a / 10;
    }
  }

  lemma WrapStep(q: nat)
    ensures (q + 1) % 1024 == (q % 1024 + 1) % 1024
  {
  }
}
