/** What the radio unit hands to the L1 threads for one subframe. */
module L1Payload {
  import opened FrameParms

  datatype Payload = Payload(frameRx: nat, subframeRx: nat, frameTx: nat, subframeTx: nat, timestampTx: int)

  /** The subframes of a sequence in which something is transmitted. */
  function NonUplink(fp: Parms, s: seq<Payload>): seq<Payload>
    requires Valid(fp)
  {
    if s == [] then []
    else
      var x := s[|s| - 1];
      NonUplink(fp, s[..|s| - 1]) + (if IsUplink(fp, x) then [] else [x])
  }

  predicate IsUplink(fp: Parms, x: Payload)
    requires Valid(fp)
  {
    SubframeSelect(fp, SfOf(x.subframeTx)) == UL
  }

  lemma NonUplinkSnoc(fp: Parms, s: seq<Payload>, x: Payload)
    requires Valid(fp)
    ensures NonUplink(fp, s + [x]) == NonUplink(fp, s) + (if IsUplink(fp, x) then [] else [x])
  {
    assert (s + [x])[..|s|] == s;
  }

  /** How often a subframe is left over: in TDD not at all if the pattern has uplink at its transmit subframe,
      otherwise, and always in FDD, as often as it occurs. */
  lemma {:induction false} NonUplinkCounts(fp: Parms, s: seq<Payload>, x: Payload)
    requires Valid(fp)
    ensures multiset(NonUplink(fp, s))[x] ==
      if fp.duplex == TDD && fp.pattern[x.subframeTx % 10] == UL then 0 else multiset(s)[x]
  {
    if s != [] {
      assert s == s[..|s| - 1] + [s[|s| - 1]];
      NonUplinkCounts(fp, s[..|s| - 1], x);
    }
  }

  /** In FDD nothing is left out. */
  lemma {:induction false} FddAll(fp: Parms, s: seq<Payload>)
    requires Valid(fp) && fp.duplex == FDD
    ensures NonUplink(fp, s) == s
  {
    if s != [] {
      FddAll(fp, s[..|s| - 1]);
      assert s == s[..|s| - 1] + [s[|s| - 1]];
    }
  }

  lemma {:induction false} NonUplinkPrefix(fp: Parms, s: seq<Payload>, k: nat)
    requires Valid(fp) && k <= |s|
    ensures NonUplink(fp, s[..k]) <= NonUplink(fp, s)
    decreases |s|
  {
    if k < |s| {
      var t := s[..|s| - 1];
      assert t[..k] == s[..k];
      NonUplinkPrefix(fp, t, k);
    } else {
      assert s[..k] == s;
    }
  }
}
