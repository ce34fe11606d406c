/** `_wait_build_end`: polls a list of build jobs and removes completed ones from the list while
    iterating over it, so that the job after a removed one is not examined in that poll. */
module BuildPoll {
  import opened BitMasks

  datatype Job = Job(name: string)

  /** What one query of a job shows. */
  datatype Obs = Obs(completed: bool, error: bool)

  /** The answers of the cluster: query number and job to observation. */
  type Cluster = (nat, Job) -> Obs

  datatype Query = Query(job: Job, obs: Obs)

  predicate Distinct(jobs: seq<Job>) {
    forall i, j :: 0 <= i < j < |jobs| ==> jobs[i] != jobs[j]
  }

  // ---------------------------------------------------------------- one poll

  /** `list.remove`. */
  function RemoveFirst(jobs: seq<Job>, j: Job): (r: seq<Job>)
    requires j in jobs
    ensures |r| == |jobs| - 1
    ensures forall x :: x in r ==> x in jobs
    ensures forall x :: x in jobs && x != j ==> x in r
  {
    if jobs[0] == j then jobs[1..] else [jobs[0]] + RemoveFirst(jobs[1..], j)
  }

  datatype Polled = Polled(jobs: seq<Job>, error: bool, queries: seq<Query>)

  /** The list after the job at `index` has been looked at. */
  function Looked(jobs: seq<Job>, index: nat, o: Obs): (r: seq<Job>)
    requires index < |jobs|
    ensures |r| == if o.completed then |jobs| - 1 else |jobs|
  {
    if o.completed then RemoveFirst(jobs, jobs[index]) else jobs
  }

  /** The rest of a poll whose next query has number `t`. */
  function Scan(cluster: Cluster, t: nat, jobs: seq<Job>, index: nat): Polled
    decreases |jobs| - index
  {
    if index >= |jobs| then Polled(jobs, false, [])
    else
      var o := cluster(t, jobs[index]);
      var q := Query(jobs[index], o);
      if o.error then Polled(Looked(jobs, index, o), true, [q])
      else
        var after := Scan(cluster, t + 1, Looked(jobs, index, o), index + 1);
        after.(queries := [q] + after.queries)
  }

  function Before(queries: seq<Query>, r: Polled): Polled {
    r.(queries := queries + r.queries)
  }

  /** One turn of the loop, with `queries` made before it. */
  lemma ScanTurn(cluster: Cluster, t: nat, jobs: seq<Job>, index: nat, queries: seq<Query>)
    requires index < |jobs|
    ensures var o := cluster(t + |queries|, jobs[index]);
      var jobs', queries' := Looked(jobs, index, o), queries + [Query(jobs[index], o)];
      Before(queries, Scan(cluster, t + |queries|, jobs, index)) ==
      if o.error then Polled(jobs', true, queries')
      else Before(queries', Scan(cluster, t + |queries'|, jobs', index + 1))
  {
    var o := cluster(t + |queries|, jobs[index]);
    var after := Scan(cluster, t + |queries| + 1, Looked(jobs, index, o), index + 1);
    var q := Query(jobs[index], o);
    assert queries + ([q] + after.queries) == queries + [q] + after.queries;
  }

  /** The `for` loop with its index into the shrinking list. */
  method PollOnce(cluster: Cluster, t: nat, jobs0: seq<Job>) returns (r: Polled)
    ensures r == Scan(cluster, t, jobs0, 0)
  {
    var jobs, index := jobs0, 0;
    var queries: seq<Query> := [];
    ghost var goal := Scan(cluster, t, jobs0, 0);
    assert Before([], goal) == goal;
    while index < |jobs|
      invariant goal == Before(queries, Scan(cluster, t + |queries|, jobs, index))
      decreases |jobs| - index
    {
      var o := cluster(t + |queries|, jobs[index]);
      ScanTurn(cluster, t, jobs, index, queries);
      queries := queries + [Query(jobs[index], o)];
      jobs := Looked(jobs, index, o);
      index := index + 1;
      if o.error {
        return Polled(jobs, true, queries);
      }
    }
    return Polled(jobs, false, queries);
  }

  // ---------------------------------------------------------------- what a poll establishes

  predicate Completed(queries: seq<Query>, j: Job) {
    exists i :: 0 <= i < |queries| && queries[i].job == j && queries[i].obs.completed
  }

  predicate Erred(queries: seq<Query>) {
    exists i :: 0 <= i < |queries| && queries[i].obs.error
  }

  /** The queries are the answers the cluster gave, in order. */
  predicate Answered(cluster: Cluster, t: nat, queries: seq<Query>) {
    forall i :: 0 <= i < |queries| ==> queries[i].obs == cluster(t + i, queries[i].job)
  }

  lemma {:induction false} ScanSound(cluster: Cluster, t: nat, jobs: seq<Job>, index: nat)
    ensures var r := Scan(cluster, t, jobs, index);
      && Answered(cluster, t, r.queries)
      && (r.error <==> Erred(r.queries))
      && (forall j :: j in jobs ==> j in r.jobs || Completed(r.queries, j))
      && (forall j :: j in r.jobs ==> j in jobs)
    decreases |jobs| - index
  {
    if index < |jobs| {
      var o := cluster(t, jobs[index]);
      var q := Query(jobs[index], o);
      if o.error {
        assert [q][0] == q;
      } else {
        ScanSound(cluster, t + 1, Looked(jobs, index, o), index + 1);
        AfterQuery(cluster, t, q, Scan(cluster, t + 1, Looked(jobs, index, o), index + 1).queries);
      }
    }
  }

  lemma AfterQuery(cluster: Cluster, t: nat, q: Query, queries: seq<Query>)
    requires q.obs == cluster(t, q.job) && !q.obs.error
    requires Answered(cluster, t + 1, queries)
    ensures Answered(cluster, t, [q] + queries)
    ensures Erred([q] + queries) <==> Erred(queries)
    ensures forall j :: Completed([q] + queries, j) <==> Completed(queries, j) || (j == q.job && q.obs.completed)
  {
    var all := [q] + queries;
    assert all[0] == q;
    assert forall i :: 0 <= i < |queries| ==> all[i + 1] == queries[i];
    assert forall i :: 0 < i < |all| ==> all[i] == queries[i - 1];
    forall i | 0 <= i < |all| ensures all[i].obs == cluster(t + i, all[i].job) {
      if i > 0 {
        assert queries[i - 1].obs == cluster(t + 1 + (i - 1), queries[i - 1].job);
      }
    }
    forall j ensures Completed(all, j) <==> Completed(queries, j) || (j == q.job && q.obs.completed) {
      if Completed(queries, j) {
        var i :| 0 <= i < |queries| && queries[i].job == j && queries[i].obs.completed;
        assert all[i + 1] == queries[i];
      }
    }
    if Erred(queries) {
      var i :| 0 <= i < |queries| && queries[i].obs.error;
      assert all[i + 1] == queries[i];
    }
  }

  // ---------------------------------------------------------------- which jobs a poll passes over

  lemma {:induction false} RemoveAt(p: seq<Job>, j: Job, q: seq<Job>)
    requires j !in p
    ensures RemoveFirst(p + [j] + q, j) == p + q
  {
    var all := p + [j] + q;
    if p == [] {
      assert all == [j] + q;
    } else {
      assert all[0] == p[0] && all[1..] == p[1..] + [j] + q;
      RemoveAt(p[1..], j, q);
      assert [p[0]] + (p[1..] + q) == p + q;
    }
  }

  lemma DistinctWithout(p: seq<Job>, j: Job, q: seq<Job>)
    requires Distinct(p + [j] + q)
    ensures Distinct(p + q) && j !in p
  {
    var all := p + [j] + q;
    assert all[|p|] == j && forall i :: 0 <= i < |p| ==> all[i] == p[i];
    forall i, k | 0 <= i < k < |p + q| ensures (p + q)[i] != (p + q)[k] {
      assert (p + q)[i] == all[if i < |p| then i else i + 1];
      assert (p + q)[k] == all[if k < |p| then k else k + 1];
    }
  }

  /** The jobs a poll looks at, by what the cluster answers: after a completed job the next one is
      passed over, after any other the poll goes on with the next. */
  function Examined(cluster: Cluster, t: nat, jobs: seq<Job>): (r: seq<Job>)
    ensures |r| <= |jobs|
    decreases |jobs|
  {
    if jobs == [] then []
    else if cluster(t, jobs[0]).error then [jobs[0]]
    else if cluster(t, jobs[0]).completed && |jobs| > 1 then [jobs[0]] + Examined(cluster, t + 1, jobs[2..])
    else [jobs[0]] + Examined(cluster, t + 1, jobs[1..])
  }

  /** The queries are for these jobs, in this order. */
  predicate Names(queries: seq<Query>, jobs: seq<Job>) {
    |queries| == |jobs| && forall i :: 0 <= i < |jobs| ==> queries[i].job == jobs[i]
  }

  lemma NamesFirst(q: Query, queries: seq<Query>, jobs: seq<Job>)
    requires Names(queries, jobs)
    ensures Names([q] + queries, [q.job] + jobs)
  {
  }

  lemma {:induction false} ScanExamines(cluster: Cluster, t: nat, kept: seq<Job>, left: seq<Job>)
    requires Distinct(kept + left)
    ensures Names(Scan(cluster, t, kept + left, |kept|).queries, Examined(cluster, t, left))
    decreases |left|
  {
    var jobs := kept + left;
    if left != [] {
      var j := left[0];
      var o := cluster(t, j);
      assert jobs[|kept|] == j;
      assert jobs == kept + [j] + left[1..];
      DistinctWithout(kept, j, left[1..]);
      RemoveAt(kept, j, left[1..]);
      if o.error {
      } else if !o.completed {
        assert jobs == (kept + [j]) + left[1..];
        ScanExamines(cluster, t + 1, kept + [j], left[1..]);
        NamesFirst(Query(j, o), Scan(cluster, t + 1, jobs, |kept| + 1).queries, Examined(cluster, t + 1, left[1..]));
      } else if |left| > 1 {
        assert kept + left[1..] == (kept + [left[1]]) + left[2..];
        ScanExamines(cluster, t + 1, kept + [left[1]], left[2..]);
        NamesFirst(Query(j, o), Scan(cluster, t + 1, kept + left[1..], |kept| + 1).queries,
          Examined(cluster, t + 1, left[2..]));
      } else {
        assert Scan(cluster, t + 1, kept + left[1..], |kept| + 1).queries == [];
      }
    }
  }

  // ---------------------------------------------------------------- all jobs completed

  /** From query `t` on every job shows Completed and none shows Error. */
  ghost predicate Settled(cluster: Cluster, t: nat) {
    forall u: nat, j :: u >= t ==> cluster(u, j) == Obs(true, false)
  }

  /** A poll removes every second job: of the `n` jobs from the index on, n/2 stay. */
  lemma {:induction false} HalfStay(cluster: Cluster, t: nat, jobs: seq<Job>, index: nat)
    requires Settled(cluster, t) && index <= |jobs|
    ensures var r := Scan(cluster, t, jobs, index);
      !r.error && |r.jobs| == index + (|jobs| - index) / 2
    decreases |jobs| - index
  {
    if index < |jobs| {
      var o := cluster(t, jobs[index]);
      var jobs' := Looked(jobs, index, o);
      if index + 1 <= |jobs'| {
        HalfStay(cluster, t + 1, jobs', index + 1);
      }
    }
  }

  // ---------------------------------------------------------------- the waiting loop

  /** The answer of the wait, if it has come. */
  datatype Answer = True | False | Pending

  datatype Waited = Waited(answer: Answer, polls: nat, queries: seq<Query>)

  /** The rest of the wait, `timeout` seconds before its end, observed for at most `limit` polls. */
  function Wait(cluster: Cluster, t: nat, jobs: seq<Job>, timeout: int, interval: int, limit: nat): Waited
    decreases limit
  {
    if timeout <= 0 then Waited(False, 0, [])
    else if limit == 0 then Waited(Pending, 0, [])
    else
      var p := Scan(cluster, t, jobs, 0);
      if p.error then Waited(False, 1, p.queries)
      else if p.jobs == [] then Waited(True, 1, p.queries)
      else Then(1, p.queries, Wait(cluster, t + |p.queries|, p.jobs, timeout - interval, interval, limit - 1))
  }

  function Then(polls: nat, queries: seq<Query>, w: Waited): Waited {
    Waited(w.answer, polls + w.polls, queries + w.queries)
  }

  /** One turn of the loop, with `polls` and `queries` made before it. */
  lemma WaitStep(cluster: Cluster, polls: nat, queries: seq<Query>, jobs: seq<Job>, timeout: int, interval: int,
                 limit: nat)
    requires timeout > 0 && limit > 0
    ensures var p := Scan(cluster, |queries|, jobs, 0);
      Then(polls, queries, Wait(cluster, |queries|, jobs, timeout, interval, limit)) ==
      if p.error then Waited(False, polls + 1, queries + p.queries)
      else if p.jobs == [] then Waited(True, polls + 1, queries + p.queries)
      else Then(polls + 1, queries + p.queries,
                Wait(cluster, |queries + p.queries|, p.jobs, timeout - interval, interval, limit - 1))
  {
    var p := Scan(cluster, |queries|, jobs, 0);
    var w := Wait(cluster, |queries| + |p.queries|, p.jobs, timeout - interval, interval, limit - 1);
    assert queries + (p.queries + w.queries) == queries + p.queries + w.queries;
  }

  /** `_wait_build_end`, observed for at most `limit` polls; with an interval above zero it ends by itself. */
  method WaitBuildEnd(cluster: Cluster, jobs0: seq<Job>, timeout0: int, interval: int, limit: nat) returns (r: Waited)
    ensures r == Wait(cluster, 0, jobs0, timeout0, interval, limit)
    ensures Sound(cluster, 0, jobs0, r) && Bounded(r, timeout0, interval, limit)
  {
    r := WaitLoop(cluster, jobs0, timeout0, interval, limit);
    WaitSound(cluster, 0, jobs0, timeout0, interval, limit);
    WaitBounded(cluster, 0, jobs0, timeout0, interval, limit);
  }

  method WaitLoop(cluster: Cluster, jobs0: seq<Job>, timeout0: int, interval: int, limit: nat) returns (r: Waited)
    ensures r == Wait(cluster, 0, jobs0, timeout0, interval, limit)
  {
    var jobs, timeout, left := jobs0, timeout0, limit;
    var queries: seq<Query>, polls: nat := [], 0;
    ghost var goal := Wait(cluster, 0, jobs0, timeout0, interval, limit);
    assert [] + goal.queries == goal.queries;
    while timeout > 0
      invariant goal == Then(polls, queries, Wait(cluster, |queries|, jobs, timeout, interval, left))
      decreases left, timeout
    {
      if left == 0 {
        return Waited(Pending, polls, queries);
      }
      var p := PollOnce(cluster, |queries|, jobs);
      WaitStep(cluster, polls, queries, jobs, timeout, interval, left);
      polls, queries, jobs := polls + 1, queries + p.queries, p.jobs;
      if p.error {
        return Waited(False, polls, queries);
      }
      if jobs == [] {
        return Waited(True, polls, queries);
      }
      timeout, left := timeout - interval, left - 1;
    }
    return Waited(False, polls, queries);
  }

  /** True means that every job was seen Completed and none in Error. */
  ghost predicate Sound(cluster: Cluster, t: nat, jobs: seq<Job>, w: Waited) {
    && Answered(cluster, t, w.queries)
    && (w.answer == True ==> !Erred(w.queries) && AllCompleted(jobs, w.queries))
  }

  lemma SoundThen(cluster: Cluster, t: nat, jobs: seq<Job>, p: Polled, w: Waited)
    requires Answered(cluster, t, p.queries) && !Erred(p.queries)
    requires forall j :: j in jobs ==> j in p.jobs || Completed(p.queries, j)
    requires Sound(cluster, t + |p.queries|, p.jobs, w)
    ensures Sound(cluster, t, jobs, Then(1, p.queries, w))
  {
    Concat(cluster, t, p.queries, w.queries);
    CompletedThen(jobs, p, w.queries);
  }

  lemma {:induction false} WaitSound(cluster: Cluster, t: nat, jobs: seq<Job>, timeout: int, interval: int, limit: nat)
    ensures Sound(cluster, t, jobs, Wait(cluster, t, jobs, timeout, interval, limit))
    decreases limit
  {
    if timeout > 0 && limit > 0 {
      var p := Scan(cluster, t, jobs, 0);
      ScanSound(cluster, t, jobs, 0);
      if !p.error && p.jobs != [] {
        var w := Wait(cluster, t + |p.queries|, p.jobs, timeout - interval, interval, limit - 1);
        WaitSound(cluster, t + |p.queries|, p.jobs, timeout - interval, interval, limit - 1);
        SoundThen(cluster, t, jobs, p, w);
      }
    }
  }

  lemma CompletedThen(jobs: seq<Job>, p: Polled, later: seq<Query>)
    requires forall j :: j in jobs ==> j in p.jobs || Completed(p.queries, j)
    ensures AllCompleted(p.jobs, later) ==> AllCompleted(jobs, p.queries + later)
  {
    var all := p.queries + later;
    if AllCompleted(p.jobs, later) {
      forall j | j in jobs ensures Completed(all, j) {
        if j in p.jobs {
          var i :| 0 <= i < |later| && later[i].job == j && later[i].obs.completed;
          assert all[|p.queries| + i] == later[i];
        } else {
          var i :| 0 <= i < |p.queries| && p.queries[i].job == j && p.queries[i].obs.completed;
          assert all[i] == p.queries[i];
        }
      }
    }
  }

  predicate AllCompleted(jobs: seq<Job>, queries: seq<Query>) {
    forall j :: j in jobs ==> Completed(queries, j)
  }

  /** No poll starts after the timeout; False without an Error seen means that the timeout is used up; and no
      answer yet means that more polls are needed than were observed. */
  predicate Bounded(w: Waited, timeout: int, interval: int, limit: nat) {
    && (w.polls > 0 ==> (w.polls - 1) * interval < timeout)
    && (w.answer == False ==> Erred(w.queries) || timeout <= w.polls * interval)
    && (w.answer == Pending ==> w.polls == limit && limit * interval < timeout)
  }

  lemma BoundedThen(queries: seq<Query>, w: Waited, timeout: int, interval: int, limit: nat)
    requires timeout > 0 && limit > 0 && Bounded(w, timeout - interval, interval, limit - 1)
    ensures Bounded(Then(1, queries, w), timeout, interval, limit)
  {
    ErredLater(queries, w.queries);
    OneMore(w.polls, interval);
    OneMore(limit, interval);
  }

  lemma {:induction false} WaitBounded(cluster: Cluster, t: nat, jobs: seq<Job>, timeout: int, interval: int,
                                       limit: nat)
    ensures Bounded(Wait(cluster, t, jobs, timeout, interval, limit), timeout, interval, limit)
    decreases limit
  {
    if timeout > 0 && limit > 0 {
      var p := Scan(cluster, t, jobs, 0);
      ScanSound(cluster, t, jobs, 0);
      if !p.error && p.jobs != [] {
        var w := Wait(cluster, t + |p.queries|, p.jobs, timeout - interval, interval, limit - 1);
        WaitBounded(cluster, t + |p.queries|, p.jobs, timeout - interval, interval, limit - 1);
        BoundedThen(p.queries, w, timeout, interval, limit);
      }
    }
  }

  lemma ErredLater(p: seq<Query>, q: seq<Query>)
    ensures Erred(q) ==> Erred(p + q)
  {
    if Erred(q) {
      var i :| 0 <= i < |q| && q[i].obs.error;
      assert (p + q)[|p| + i].obs.error;
    }
  }

  lemma OneMore(n: int, interval: int)
    ensures (n + 1) * interval == n * interval + interval
    ensures n * interval == (n - 1) * interval + interval
  {
  }

  lemma Concat(cluster: Cluster, t: nat, p: seq<Query>, q: seq<Query>)
    requires Answered(cluster, t, p) && Answered(cluster, t + |p|, q)
    ensures Answered(cluster, t, p + q)
    ensures Erred(p + q) <==> Erred(p) || Erred(q)
  {
    assert forall i :: 0 <= i < |p| ==> (p + q)[i] == p[i];
    assert forall i :: 0 <= i < |q| ==> (p + q)[|p| + i] == q[i];
    forall i | 0 <= i < |p + q| ensures (p + q)[i].obs == cluster(t + i, (p + q)[i].job) {
      if i >= |p| {
        assert (p + q)[i] == q[i - |p|];
        assert q[i - |p|].obs == cluster(t + |p| + (i - |p|), q[i - |p|].job);
      }
    }
    if Erred(p) {
      var i :| 0 <= i < |p| && p[i].obs.error;
      assert (p + q)[i].obs.error;
    }
    if Erred(q) {
      var i :| 0 <= i < |q| && q[i].obs.error;
      assert (p + q)[|p| + i].obs.error;
    }
  }

  /** The polls that `n` jobs take which are all done. */
  function PollsNeeded(n: nat): nat {
    if n <= 1 then 1 else 1 + PollsNeeded(n / 2)
  }

  /** floor(log2 n) + 1. */
  lemma {:induction false} PollsNeededIsLog(n: nat)
    requires n > 0
    ensures PollsNeeded(n) >= 1 && Pow2(PollsNeeded(n) - 1) <= n < Pow2(PollsNeeded(n))
  {
    if n > 1 {
      PollsNeededIsLog(n / 2);
    }
  }

  lemma {:induction false} NeedsOne(n: nat, interval: int)
    ensures PollsNeeded(n) >= 1
    ensures interval >= 0 ==> (PollsNeeded(n) - 1) * interval >= 0
    ensures interval <= 0 ==> (PollsNeeded(n) - 1) * interval <= 0
  {
    if n > 1 {
      NeedsOne(n / 2, interval);
      OneMore(PollsNeeded(n / 2), interval);
    }
  }

  /** Jobs that are all done when the wait starts are reported so exactly when the timeout leaves room
      for the last of the polls that the skipping makes necessary, for any interval. */
  lemma {:induction false} SettledWait(cluster: Cluster, t: nat, jobs: seq<Job>, timeout: int, interval: int,
                                       limit: nat)
    requires Settled(cluster, t) && limit >= PollsNeeded(|jobs|)
    ensures var w := Wait(cluster, t, jobs, timeout, interval, limit);
      && (w.answer == True <==> timeout > 0 && timeout > (PollsNeeded(|jobs|) - 1) * interval)
      && (w.answer == True ==> w.polls == PollsNeeded(|jobs|))
    decreases limit
  {
    NeedsOne(|jobs|, interval);
    if timeout > 0 && limit > 0 {
      var p := Scan(cluster, t, jobs, 0);
      HalfStay(cluster, t, jobs, 0);
      if |jobs| > 1 {
        assert |p.jobs| == |jobs| / 2;
        SettledWait(cluster, t + |p.queries|, p.jobs, timeout - interval, interval, limit - 1);
        NeedsOne(|jobs| / 2, interval);
        OneMore(PollsNeeded(|jobs| / 2), interval);
      } else {
        assert |p.jobs| == 0;
      }
    }
  }
}
