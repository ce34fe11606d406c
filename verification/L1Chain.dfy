/** The two hand-offs together: from the subframes accepted by the L1 receive thread to those the L1
    transmit thread has completed. */
module L1Chain {
  import opened FrameParms
  import opened L1Payload
  import Rx = RxMailbox
  import Tx = TxMailbox

  /** In every pair of runs in which the receive thread's calls are the transmit producer's, and no subframe was
      accepted between a release and the last load after it, the completed transmissions are a prefix of the
      accepted subframes that are not uplink: in order, none twice, none invented.  Once both hand-offs are
      drained, they are all of them. */
  lemma EndToEnd(fp: Parms, rs: seq<Rx.State>, ras: seq<Rx.Action>, ts: seq<Tx.State>, tas: seq<Tx.Action>)
    requires Valid(fp) && Rx.IsRun(rs, ras) && Tx.IsRun(fp, 1, ts, tas)
    requires Rx.NoneOvertaken(rs, ras)
    requires ts[|tas|].offered <= rs[|ras|].forwarded
    ensures ts[|tas|].done <= NonUplink(fp, rs[|ras|].accepted)
    ensures Drained(rs[|ras|], ts[|tas|]) ==> ts[|tas|].done == NonUplink(fp, rs[|ras|].accepted)
    ensures fp.duplex == FDD ==> ts[|tas|].done <= rs[|ras|].accepted
  {
    var r, t := rs[|ras|], ts[|tas|];
    Rx.FaithfulIfNotOvertaken(rs, ras);
    Rx.RunsAreLoading(rs, ras, |ras|);
    Tx.RunsAreExact(fp, ts, tas);
    assert t.offered <= r.accepted;
    assert t.offered == r.accepted[..|t.offered|];
    NonUplinkPrefix(fp, r.accepted, |t.offered|);
    if fp.duplex == FDD { FddAll(fp, r.accepted); }
    if Drained(r, t) { assert t.offered == r.accepted; }
  }

  /** Nothing is in a slot or in a thread's hands. */
  predicate Drained(r: Rx.State, t: Tx.State) {
    && r.cnt == -1 && r.thread != Rx.Released
    && t.cnt == -1 && (forall p :: 0 <= p < |t.producers| ==> t.producers[p].Idle?)
    && t.offered == r.forwarded
  }
}
