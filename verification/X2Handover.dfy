/** The X2 handover recogniser inside the eNB log analysis: one pass over the log lines with a state, a
    count of incoming and a count of outgoing handovers. */
module X2Handover {

  /** The texts the recogniser searches for, in the order of the code. */
  datatype Pattern = HoReq | HoReqAck | RecfgComplete | PathSwitchReq | PathSwitchAck | ContextRelease

  /** A log line, as the set of patterns it contains. */
  type Line = set<Pattern>

  datatype HoState = Idle | TargetReq | RecfgDone | SwitchSent | SourceAck

  // ---------------------------------------------------------------- witnesses of a procedure

  /** The number of messages of a handover, incoming or outgoing. */
  function Period(incoming: bool): nat {
    if incoming then 4 else 2
  }

  /** The number of messages of `k` handovers. */
  function Span(incoming: bool, k: nat): nat {
    if incoming then 4 * k else 2 * k
  }

  /** The number of whole handovers in `p` messages. */
  function Whole(incoming: bool, p: nat): nat {
    if incoming then p / 4 else p / 2
  }

  /** The i-th message of an unbounded sequence of incoming handovers, or of outgoing ones. */
  function Word(incoming: bool, i: nat): Pattern {
    if incoming then
      match i % 4
      case 0 => HoReq
      case 1 => RecfgComplete
      case 2 => PathSwitchReq
      case _ => PathSwitchAck
    else if i % 2 == 0 then HoReqAck else ContextRelease
  }

  /** A counted procedure and the numbers of the lines that prove it. */
  datatype Proc = Proc(incoming: bool, lines: seq<nat>)

  predicate Ascending(lines: seq<nat>) {
    forall i, j :: 0 <= i < j < |lines| ==> lines[i] <= lines[j]
  }

  /** The lines of the first `n` messages of a procedure of the given kind. */
  predicate Proves(log: seq<Line>, incoming: bool, lines: seq<nat>) {
    && |lines| <= Period(incoming)
    && Ascending(lines)
    && forall i :: 0 <= i < |lines| ==> lines[i] < |log| && Word(incoming, i) in log[lines[i]]
  }

  predicate Complete(p: Proc) {
    |p.lines| == Period(p.incoming)
  }

  /** Every procedure is proved by its own lines, after all lines of the procedures before it. */
  predicate AllProved(log: seq<Line>, procs: seq<Proc>) {
    && (forall k :: 0 <= k < |procs| ==> Complete(procs[k]) && Proves(log, procs[k].incoming, procs[k].lines))
    && (forall j, k :: 0 <= j < k < |procs| && Complete(procs[j]) && Complete(procs[k]) ==>
          procs[j].lines[|procs[j].lines| - 1] < procs[k].lines[0])
  }

  function CountOf(procs: seq<Proc>, incoming: bool): nat {
    if procs == [] then 0
    else CountOf(procs[..|procs| - 1], incoming) + (if procs[|procs| - 1].incoming == incoming then 1 else 0)
  }

  // ---------------------------------------------------------------- the largest embedding

  /** The lines `idx`, strictly increasing, carry the first `|idx|` messages of such handovers. */
  predicate Carries(incoming: bool, log: seq<Line>, idx: seq<nat>) {
    && (forall i, j :: 0 <= i < j < |idx| ==> idx[i] < idx[j])
    && (forall i :: 0 <= i < |idx| ==> idx[i] < |log| && Word(incoming, i) in log[idx[i]])
  }

  /** The first `n` messages form a subsequence of the log. */
  ghost predicate Embeds(incoming: bool, log: seq<Line>, n: nat) {
    exists idx: seq<nat> :: |idx| == n && Carries(incoming, log, idx)
  }

  /** How far a left-to-right scan gets. */
  function Progress(incoming: bool, log: seq<Line>): nat {
    if log == [] then 0
    else
      var p := Progress(incoming, log[..|log| - 1]);
      if Word(incoming, p) in log[|log| - 1] then p + 1 else p
  }

  lemma {:induction false} ScanEmbeds(incoming: bool, log: seq<Line>) returns (idx: seq<nat>)
    ensures |idx| == Progress(incoming, log) && Carries(incoming, log, idx)
    decreases |log|
  {
    if log == [] {
      idx := [];
    } else {
      var n := |log| - 1;
      idx := ScanEmbeds(incoming, log[..n]);
      if Word(incoming, |idx|) in log[n] { idx := idx + [n]; }
    }
  }

  lemma {:induction false} NoLongerEmbedding(incoming: bool, log: seq<Line>, idx: seq<nat>)
    requires Carries(incoming, log, idx)
    ensures |idx| <= Progress(incoming, log)
    decreases |log|
  {
    if idx != [] {
      assert idx[0] < |log|;
      var n, m := |log| - 1, |idx| - 1;
      if idx[m] == n {
        assert Carries(incoming, log[..n], idx[..m]);
        NoLongerEmbedding(incoming, log[..n], idx[..m]);
      } else {
        assert Carries(incoming, log[..n], idx);
        NoLongerEmbedding(incoming, log[..n], idx);
      }
    }
  }

  /** The scan is optimal: a prefix of the message sequence embeds exactly if the scan gets that far. */
  lemma ScanIsOptimal(incoming: bool, log: seq<Line>, n: nat)
    ensures Embeds(incoming, log, n) <==> n <= Progress(incoming, log)
  {
    var idx := ScanEmbeds(incoming, log);
    if n <= |idx| {
      assert Carries(incoming, log, idx[..n]) && |idx[..n]| == n;
    }
    if Embeds(incoming, log, n) {
      var any: seq<nat> :| |any| == n && Carries(incoming, log, any);
      NoLongerEmbedding(incoming, log, any);
    }
  }

  // ---------------------------------------------------------------- keeping the witnesses

  function Stage(state: HoState): nat {
    match state
    case Idle => 0
    case TargetReq => 1
    case RecfgDone => 2
    case SwitchSent => 3
    case SourceAck => 1
  }

  /** The lines after which a new procedure may start. */
  function Frontier(procs: seq<Proc>): int {
    if procs == [] || procs[|procs| - 1].lines == [] then -1
    else procs[|procs| - 1].lines[|procs[|procs| - 1].lines| - 1]
  }

  /** The counted procedures are proved, and `lines` proves the part of the next one that the state
      stands for. */
  ghost predicate Witnessed(log: seq<Line>, procs: seq<Proc>, state: HoState, lines: seq<nat>) {
    && AllProved(log, procs)
    && |lines| == Stage(state)
    && Proves(log, state != SourceAck, lines)
    && (lines != [] ==> Frontier(procs) < lines[0])
    && Frontier(procs) < |log|
  }

  /** A line that matches nothing the state waits for. */
  lemma Skip(log: seq<Line>, x: Line, procs: seq<Proc>, state: HoState, lines: seq<nat>)
    requires Witnessed(log, procs, state, lines)
    ensures Witnessed(log + [x], procs, state, lines)
  {
    assert forall k :: 0 <= k < |procs| && Proves(log, procs[k].incoming, procs[k].lines) ==>
      Proves(log + [x], procs[k].incoming, procs[k].lines);
  }

  /** The last line starts a procedure; none of the counted ones uses it. */
  lemma Start(log: seq<Line>, procs: seq<Proc>, state: HoState)
    requires log != [] && Witnessed(log, procs, Idle, []) && Frontier(procs) < |log| - 1
    requires (state == TargetReq && HoReq in log[|log| - 1]) || (state == SourceAck && HoReqAck in log[|log| - 1])
    ensures Witnessed(log, procs, state, [|log| - 1])
  {
  }

  /** The last line continues an incoming procedure. */
  lemma Continue(log: seq<Line>, procs: seq<Proc>, state: HoState, next: HoState, lines: seq<nat>)
    requires log != [] && Witnessed(log, procs, state, lines)
    requires state != SourceAck && next != SourceAck && Stage(next) == Stage(state) + 1 && state != Idle
    requires Word(true, Stage(state)) in log[|log| - 1]
    ensures Witnessed(log, procs, next, lines + [|log| - 1])
  {
    Ordered(log, state != SourceAck, lines, |log| - 1);
  }

  lemma Ordered(log: seq<Line>, incoming: bool, lines: seq<nat>, n: nat)
    requires Proves(log, incoming, lines) && n == |log| - 1
    ensures Ascending(lines + [n])
  {
  }

  lemma Before(log: seq<Line>, procs: seq<Proc>, j: nat)
    requires AllProved(log, procs) && j < |procs|
    ensures procs[j].lines != [] && procs[j].lines[|procs[j].lines| - 1] <= Frontier(procs)
  {
    var last := procs[|procs| - 1];
    assert Complete(procs[j]) && Complete(last) && Proves(log, last.incoming, last.lines);
    assert last.lines[0] <= last.lines[|last.lines| - 1];
  }

  lemma JoinProved(log: seq<Line>, procs: seq<Proc>, p: Proc)
    requires AllProved(log, procs) && Complete(p) && Proves(log, p.incoming, p.lines) && Frontier(procs) < p.lines[0]
    ensures AllProved(log, procs + [p])
  {
    forall j | 0 <= j < |procs|
      ensures procs[j].lines != [] && procs[j].lines[|procs[j].lines| - 1] < p.lines[0]
    {
      Before(log, procs, j);
    }
  }

  lemma JoinCounts(procs: seq<Proc>, p: Proc, incoming: bool)
    ensures CountOf(procs + [p], incoming) == CountOf(procs, incoming) + (if p.incoming == incoming then 1 else 0)
  {
    assert (procs + [p])[..|procs|] == procs;
  }

  /** The last line finishes a procedure. */
  lemma End(log: seq<Line>, procs: seq<Proc>, state: HoState, lines: seq<nat>)
    requires log != [] && Witnessed(log, procs, state, lines)
    requires
      || (state == SwitchSent && PathSwitchAck in log[|log| - 1])
      || (state == SourceAck && ContextRelease in log[|log| - 1])
    ensures Witnessed(log, procs + [Proc(state == SwitchSent, lines + [|log| - 1])], Idle, [])
  {
    var p := Proc(state == SwitchSent, lines + [|log| - 1]);
    Ordered(log, state != SourceAck, lines, |log| - 1);
    JoinProved(log, procs, p);
  }

  // ---------------------------------------------------------------- the recogniser

  /** Where the first two tests leave an idle recogniser; the acknowledgement is tested last. */
  function Opened(state: HoState, line: Line): HoState {
    if state != Idle then state
    else if HoReqAck in line then SourceAck
    else if HoReq in line then TargetReq
    else Idle
  }

  /** Where the two intermediate tests leave it: one line may pass several. */
  function Continued(state: HoState, line: Line): HoState {
    var s := if state == TargetReq && RecfgComplete in line then RecfgDone else state;
    if s == RecfgDone && PathSwitchReq in line then SwitchSent else s
  }

  /** Whether the last two tests close a procedure. */
  predicate Closes(state: HoState, line: Line) {
    (state == SwitchSent && PathSwitchAck in line) || (state == SourceAck && ContextRelease in line)
  }

  /** Where one line leaves the recogniser. */
  function After(state: HoState, line: Line): HoState {
    var s := Continued(Opened(state, line), line);
    if Closes(s, line) then Idle else s
  }

  /** The incoming or outgoing handovers that it counts. */
  function Counts(state: HoState, line: Line, incoming: bool): nat {
    var s := Continued(Opened(state, line), line);
    if Closes(s, line) && s == (if incoming then SwitchSent else SourceAck) then 1 else 0
  }

  /** The witnesses after the first four tests of one more line. */
  lemma LineAdvances(log: seq<Line>, line: Line, state: HoState, procs: seq<Proc>, lines: seq<nat>)
    returns (lines': seq<nat>)
    requires Witnessed(log, procs, state, lines)
    ensures Witnessed(log + [line], procs, Continued(Opened(state, line), line), lines')
  {
    var log', here := log + [line], |log|;
    Skip(log, line, procs, state, lines);
    var s1 := Opened(state, line);
    lines' := lines;
    if state == Idle && s1 != Idle {
      Start(log', procs, s1);
      lines' := [here];
    }
    var s2 := if s1 == TargetReq && RecfgComplete in line then RecfgDone else s1;
    if s2 != s1 {
      Continue(log', procs, s1, s2, lines');
      lines' := lines' + [here];
    }
    if Continued(s1, line) != s2 {
      Continue(log', procs, s2, Continued(s1, line), lines');
      lines' := lines' + [here];
    }
  }

  /** The witnesses after one more line. */
  lemma LineKeeps(log: seq<Line>, line: Line, state: HoState, procs: seq<Proc>, lines: seq<nat>)
    returns (procs': seq<Proc>, lines': seq<nat>)
    requires Witnessed(log, procs, state, lines)
    ensures Witnessed(log + [line], procs', After(state, line), lines')
    ensures CountOf(procs', true) == CountOf(procs, true) + Counts(state, line, true)
    ensures CountOf(procs', false) == CountOf(procs, false) + Counts(state, line, false)
  {
    var s := Continued(Opened(state, line), line);
    lines' := LineAdvances(log, line, state, procs, lines);
    procs' := procs;
    if Closes(s, line) {
      procs' := LineCloses(log + [line], procs, s, lines');
      lines' := [];
    }
  }

  /** The witnesses after a line that closes a procedure. */
  lemma LineCloses(log: seq<Line>, procs: seq<Proc>, state: HoState, lines: seq<nat>) returns (procs': seq<Proc>)
    requires log != [] && Witnessed(log, procs, state, lines) && Closes(state, log[|log| - 1])
    ensures Witnessed(log, procs', Idle, [])
    ensures CountOf(procs', true) == CountOf(procs, true) + (if state == SwitchSent then 1 else 0)
    ensures CountOf(procs', false) == CountOf(procs, false) + (if state == SourceAck then 1 else 0)
  {
    var p := Proc(state == SwitchSent, lines + [|log| - 1]);
    End(log, procs, state, lines);
    JoinCounts(procs, p, true);
    JoinCounts(procs, p, false);
    procs' := procs + [p];
  }

  lemma WordPeriodic(incoming: bool, k: nat, i: nat)
    requires i < Period(incoming)
    ensures Word(incoming, Span(incoming, k) + i) == Word(incoming, i)
  {
    if incoming { assert (4 * k + i) % 4 == i; } else { assert (2 * k + i) % 2 == i; }
  }

  /** The cascade of tests on one line; `ins` and `outs` are the procedures it counts. */
  method OneLine(state0: HoState, line: Line) returns (state: HoState, ins: nat, outs: nat)
    ensures state == After(state0, line)
    ensures ins == Counts(state0, line, true) && outs == Counts(state0, line, false)
    ensures state0 == SourceAck ==>
      ins == 0 && if ContextRelease in line then state == Idle && outs == 1 else state == SourceAck && outs == 0
    ensures state0 == SwitchSent ==>
      outs == 0 && if PathSwitchAck in line then state == Idle && ins == 1 else state == SwitchSent && ins == 0
  {
    state, ins, outs := state0, 0, 0;
    if state == Idle {
      if HoReq in line { state := TargetReq; }
      if HoReqAck in line { state := SourceAck; }
    }
    if state == TargetReq && RecfgComplete in line { state := RecfgDone; }
    if state == RecfgDone && PathSwitchReq in line { state := SwitchSent; }
    if state == SwitchSent && PathSwitchAck in line {
      state := Idle;
      ins := 1;
    }
    if state == SourceAck && ContextRelease in line {
      state := Idle;
      outs := 1;
    }
  }

  /** `n` is the largest number of complete message sequences that the log contains as a subsequence. */
  ghost predicate Largest(incoming: bool, log: seq<Line>, n: nat) {
    forall k: nat :: Embeds(incoming, log, Span(incoming, k)) <==> k <= n
  }

  lemma LargestCount(incoming: bool, log: seq<Line>, n: nat)
    requires n == Whole(incoming, Progress(incoming, log))
    ensures Largest(incoming, log, n)
  {
    forall k: nat ensures Embeds(incoming, log, Span(incoming, k)) <==> k <= n {
      ScanIsOptimal(incoming, log, Span(incoming, k));
    }
  }

  lemma LargestUnique(incoming: bool, log: seq<Line>, n: nat, m: nat)
    requires Largest(incoming, log, n)
    ensures Largest(incoming, log, m) <==> n == m
  {
    assert Embeds(incoming, log, Span(incoming, n)) && !Embeds(incoming, log, Span(incoming, n + 1));
    if Largest(incoming, log, m) {
      assert Embeds(incoming, log, Span(incoming, m)) && !Embeds(incoming, log, Span(incoming, m + 1));
    }
  }

  /** Where the recogniser stands after a log, and the incoming and outgoing handovers it has counted. */
  function Run(log: seq<Line>): (HoState, nat, nat) {
    if log == [] then (Idle, 0, 0)
    else
      var (state, ins, outs), line := Run(log[..|log| - 1]), log[|log| - 1];
      (After(state, line), ins + Counts(state, line, true), outs + Counts(state, line, false))
  }

  function CountIn(log: seq<Line>, incoming: bool): nat {
    if incoming then Run(log).1 else Run(log).2
  }

  lemma RunSnoc(log: seq<Line>, line: Line)
    ensures var (state, ins, outs) := Run(log);
      Run(log + [line]) == (After(state, line), ins + Counts(state, line, true), outs + Counts(state, line, false))
  {
    assert (log + [line])[..|log|] == log;
  }

  /** Every counted handover has its lines. */
  lemma {:induction false} RunKeeps(log: seq<Line>) returns (procs: seq<Proc>, lines: seq<nat>)
    ensures Witnessed(log, procs, Run(log).0, lines)
    ensures CountOf(procs, true) == Run(log).1 && CountOf(procs, false) == Run(log).2
    decreases |log|
  {
    if log == [] {
      procs, lines := [], [];
    } else {
      var init, line := log[..|log| - 1], log[|log| - 1];
      procs, lines := RunKeeps(init);
      procs, lines := LineKeeps(init, line, Run(init).0, procs, lines);
      assert init + [line] == log;
    }
  }

  lemma CountsAreWitnessed(log: seq<Line>) returns (procs: seq<Proc>)
    ensures AllProved(log, procs)
    ensures CountOf(procs, true) == Run(log).1 && CountOf(procs, false) == Run(log).2
  {
    var lines;
    procs, lines := RunKeeps(log);
  }

  /** After an acknowledgement exactly a release makes the recogniser idle, and counts one outgoing handover. */
  lemma ReleaseCounts(log: seq<Line>, line: Line)
    requires Run(log).0 == SourceAck
    ensures Run(log + [line]) == if ContextRelease in line then (Idle, Run(log).1, Run(log).2 + 1) else Run(log)
  {
    RunSnoc(log, line);
  }

  // ---------------------------------------------------------------- what the recogniser hears

  /** The messages of incoming or outgoing handovers in a line, one at a time, in the order of the tests. */
  function Messages(incoming: bool, line: Line): seq<Line> {
    if incoming then [line * {HoReq}, line * {RecfgComplete}, line * {PathSwitchReq}, line * {PathSwitchAck}]
    else [line * {HoReqAck}, line * {ContextRelease}]
  }

  /** All messages of a log. */
  function Spoken(incoming: bool, log: seq<Line>): seq<Line> {
    if log == [] then [] else Spoken(incoming, log[..|log| - 1]) + Messages(incoming, log[|log| - 1])
  }

  /** What is not listened to: for incoming handovers, a line read after a source-side acknowledgement or with one
      by an idle recogniser; for outgoing ones, a line read during an incoming handover. */
  predicate Deaf(incoming: bool, state: HoState, line: Line) {
    if incoming then state == SourceAck || (state == Idle && HoReqAck in line)
    else state != Idle && state != SourceAck
  }

  /** The messages of the other lines. */
  function Heard(incoming: bool, log: seq<Line>): seq<Line> {
    if log == [] then []
    else
      var init, line := log[..|log| - 1], log[|log| - 1];
      Heard(incoming, init) + if Deaf(incoming, Run(init).0, line) then [] else Messages(incoming, line)
  }

  /** How far one message of a line, the j-th of the sequence, takes a scan. */
  lemma MessagePasses(incoming: bool, log: seq<Line>, line: Line, p: Pattern, j: nat, n: nat, i: nat)
    requires Progress(incoming, log) == Span(incoming, n) + i
    requires i < Period(incoming) && j < Period(incoming) && Word(incoming, j) == p
    ensures Progress(incoming, log + [line * {p}]) == Span(incoming, n) + if i == j && p in line then i + 1 else i
  {
    var x := line * {p};
    assert (log + [x])[..|log|] == log;
    WordPeriodic(incoming, n, i);
    assert Word(incoming, i) == p <==> i == j;
  }

  /** How far the messages of a line take a scan. */
  function Passed(incoming: bool, i: nat, line: Line): (j: nat)
    requires i < Period(incoming)
    ensures i <= j <= Period(incoming)
  {
    if incoming then
      var a := if i == 0 && HoReq in line then 1 else i;
      var b := if a == 1 && RecfgComplete in line then 2 else a;
      var c := if b == 2 && PathSwitchReq in line then 3 else b;
      if c == 3 && PathSwitchAck in line then 4 else c
    else
      var a := if i == 0 && HoReqAck in line then 1 else i;
      if a == 1 && ContextRelease in line then 2 else a
  }

  lemma MessagesPass(incoming: bool, log: seq<Line>, line: Line, n: nat, i: nat)
    requires Progress(incoming, log) == Span(incoming, n) + i && i < Period(incoming)
    ensures Progress(incoming, log + Messages(incoming, line)) == Span(incoming, n) + Passed(incoming, i, line)
  {
    if incoming { IncomingPass(log, line, n, i); } else { OutgoingPass(log, line, n, i); }
  }

  lemma IncomingPass(log: seq<Line>, line: Line, n: nat, i: nat)
    requires Progress(true, log) == 4 * n + i && i < 4
    ensures Progress(true, log + Messages(true, line)) == 4 * n + Passed(true, i, line)
  {
    var m := Messages(true, line);
    var p1 := log + [m[0]];
    var p2 := p1 + [m[1]];
    var p3 := p2 + [m[2]];
    assert log + m == p3 + [m[3]];
    MessagePasses(true, log, line, HoReq, 0, n, i);
    var a := if i == 0 && HoReq in line then 1 else i;
    MessagePasses(true, p1, line, RecfgComplete, 1, n, a);
    var b := if a == 1 && RecfgComplete in line then 2 else a;
    MessagePasses(true, p2, line, PathSwitchReq, 2, n, b);
    var c := if b == 2 && PathSwitchReq in line then 3 else b;
    MessagePasses(true, p3, line, PathSwitchAck, 3, n, c);
  }

  lemma OutgoingPass(log: seq<Line>, line: Line, n: nat, i: nat)
    requires Progress(false, log) == 2 * n + i && i < 2
    ensures Progress(false, log + Messages(false, line)) == 2 * n + Passed(false, i, line)
  {
    var m := Messages(false, line);
    assert log + m == log + [m[0]] + [m[1]];
    MessagePasses(false, log, line, HoReqAck, 0, n, i);
    var a := if i == 0 && HoReqAck in line then 1 else i;
    MessagePasses(false, log + [m[0]], line, ContextRelease, 1, n, a);
  }

  /** The part of an incoming or outgoing handover that the state stands for. */
  function Part(incoming: bool, state: HoState): (i: nat)
    ensures i < Period(incoming)
  {
    if incoming then (if state == SourceAck then 0 else Stage(state)) else (if state == SourceAck then 1 else 0)
  }

  /** The cascade does what a scan of the line's messages does, unless it is deaf to the line. */
  lemma CascadePasses(incoming: bool, state: HoState, line: Line)
    ensures Span(incoming, Counts(state, line, incoming)) + Part(incoming, After(state, line)) ==
      if Deaf(incoming, state, line) then Part(incoming, state)
      else Passed(incoming, Part(incoming, state), line)
  {
  }

  /** The recogniser is a scan of what it hears, for every log and for handovers of both kinds. */
  lemma {:induction false} HeardProgress(incoming: bool, log: seq<Line>)
    ensures Progress(incoming, Heard(incoming, log)) ==
      Span(incoming, CountIn(log, incoming)) + Part(incoming, Run(log).0)
    decreases |log|
  {
    if log != [] {
      var init, line := log[..|log| - 1], log[|log| - 1];
      var state, n := Run(init).0, CountIn(init, incoming);
      HeardProgress(incoming, init);
      CascadePasses(incoming, state, line);
      if Deaf(incoming, state, line) {
        assert Heard(incoming, log) == Heard(incoming, init);
      } else {
        MessagesPass(incoming, Heard(incoming, init), line, n, Part(incoming, state));
      }
      assert init + [line] == log;
      RunSnoc(init, line);
    }
  }

  /** For every log: the count is the largest number of complete message sequences in what is heard, and it
      is the largest number in the log exactly if the scan of the whole log completes no more of them than
      the scan of what is heard. */
  lemma CountIsOptimalIff(incoming: bool, log: seq<Line>)
    ensures Largest(incoming, Heard(incoming, log), CountIn(log, incoming))
    ensures
      var spoken, heard := Progress(incoming, Spoken(incoming, log)), Progress(incoming, Heard(incoming, log));
      Largest(incoming, Spoken(incoming, log), CountIn(log, incoming)) <==>
        Whole(incoming, spoken) == Whole(incoming, heard)
  {
    HeardProgress(incoming, log);
    var n, m := CountIn(log, incoming), Whole(incoming, Progress(incoming, Spoken(incoming, log)));
    assert Whole(incoming, Progress(incoming, Heard(incoming, log))) == n;
    LargestCount(incoming, Heard(incoming, log), n);
    LargestCount(incoming, Spoken(incoming, log), m);
    LargestUnique(incoming, Spoken(incoming, log), m, n);
  }

  predicate OnePattern(log: seq<Line>) {
    forall i :: 0 <= i < |log| ==> Single(log[i])
  }

  predicate Single(line: Line) {
    forall p, q :: p in line && q in line ==> p == q
  }

  /** Taking a line with one pattern apart adds nothing to it. */
  lemma {:induction false} SpokenIsLog(incoming: bool, log: seq<Line>)
    requires OnePattern(log)
    ensures Progress(incoming, Spoken(incoming, log)) == Progress(incoming, log)
    decreases |log|
  {
    if log != [] {
      var init, line := log[..|log| - 1], log[|log| - 1];
      SpokenIsLog(incoming, init);
      var p := Progress(incoming, init);
      var n, i := Whole(incoming, p), p - Span(incoming, Whole(incoming, p));
      assert p == Span(incoming, n) + i;
      MessagesPass(incoming, Spoken(incoming, init), line, n, i);
      WordPeriodic(incoming, n, i);
      assert Single(line);
      SinglePasses(incoming, i, line);
    }
  }

  lemma SinglePasses(incoming: bool, i: nat, line: Line)
    requires i < Period(incoming) && Single(line)
    ensures Passed(incoming, i, line) == if Word(incoming, i) in line then i + 1 else i
  {
  }

  /** The recogniser is deaf to no line of the log. */
  predicate NeverDeaf(incoming: bool, log: seq<Line>) {
    forall i :: 0 <= i < |log| ==> !Deaf(incoming, Run(log[..i]).0, log[i])
  }

  /** The pattern that starts a handover of the given kind does not occur. */
  predicate NoStart(incoming: bool, log: seq<Line>) {
    forall i :: 0 <= i < |log| ==> Word(incoming, 0) !in log[i]
  }

  /** Then everything is heard. */
  lemma {:induction false} AllHeard(incoming: bool, log: seq<Line>)
    requires NeverDeaf(incoming, log)
    ensures Heard(incoming, log) == Spoken(incoming, log)
    decreases |log|
  {
    if log != [] {
      var n := |log| - 1;
      forall i | 0 <= i < n ensures !Deaf(incoming, Run(log[..n][..i]).0, log[..n][i]) {
        assert log[..n][..i] == log[..i];
      }
      AllHeard(incoming, log[..n]);
    }
  }

  /** So it is in a log in which no handover of the other kind starts. */
  lemma {:induction false} NoStartNeverDeaf(incoming: bool, log: seq<Line>, i: nat)
    requires NoStart(!incoming, log) && i <= |log|
    ensures var state := Run(log[..i]).0;
      if incoming then state != SourceAck else state == Idle || state == SourceAck
    decreases i
  {
    if i > 0 {
      NoStartNeverDeaf(incoming, log, i - 1);
      assert log[..i] == log[..i - 1] + [log[i - 1]];
      RunSnoc(log[..i - 1], log[i - 1]);
    } else {
      assert log[..i] == [];
    }
  }

  /** `n` is the largest number of complete message sequences in what is heard.  With at most one pattern in a line
      it is the largest number in the log if everything is heard, so if no handover of the other kind starts. */
  ghost predicate Optimal(incoming: bool, log: seq<Line>, n: nat) {
    && Largest(incoming, Heard(incoming, log), n)
    && (OnePattern(log) && NeverDeaf(incoming, log) ==> Largest(incoming, log, n))
    && (OnePattern(log) && NoStart(!incoming, log) ==> Largest(incoming, log, n))
  }

  lemma CountsAreOptimal(incoming: bool, log: seq<Line>)
    ensures Optimal(incoming, log, CountIn(log, incoming))
  {
    Counted(incoming, log);
  }

  /** The results on a count. */
  lemma Counted(incoming: bool, log: seq<Line>)
    ensures Largest(incoming, Heard(incoming, log), CountIn(log, incoming))
    ensures OnePattern(log) ==> (Largest(incoming, log, CountIn(log, incoming)) <==>
      Whole(incoming, Progress(incoming, log)) == Whole(incoming, Progress(incoming, Heard(incoming, log))))
    ensures OnePattern(log) && NeverDeaf(incoming, log) ==> Largest(incoming, log, CountIn(log, incoming))
    ensures NoStart(!incoming, log) ==> NeverDeaf(incoming, log)
  {
    CountIsOptimalIff(incoming, log);
    if NeverDeaf(incoming, log) { AllHeard(incoming, log); }
    if OnePattern(log) { SpokenCounts(incoming, log, CountIn(log, incoming)); }
    if NoStart(!incoming, log) {
      forall i | 0 <= i < |log| ensures !Deaf(incoming, Run(log[..i]).0, log[i]) {
        NoStartNeverDeaf(incoming, log, i);
        assert Word(!incoming, 0) !in log[i];
      }
    }
  }

  lemma SpokenCounts(incoming: bool, log: seq<Line>, n: nat)
    requires OnePattern(log)
    ensures Progress(incoming, Spoken(incoming, log)) == Progress(incoming, log)
    ensures Largest(incoming, log, n) <==> Largest(incoming, Spoken(incoming, log), n)
  {
    SpokenIsLog(incoming, log);
    var m := Whole(incoming, Progress(incoming, log));
    LargestCount(incoming, log, m);
    LargestCount(incoming, Spoken(incoming, log), m);
    LargestUnique(incoming, log, m, n);
    LargestUnique(incoming, Spoken(incoming, log), m, n);
  }

  /** The loop of `AnalyzeLogFile_eNB` over the log lines.  Every counted procedure has its own lines, in
      order and after those of the procedures before it; each count, of incoming and of outgoing handovers, is
      the largest number of complete message sequences that what is heard contains as a subsequence.  On a log
      with at most one pattern in a line it is the largest number that the log contains if the recogniser is
      deaf to no line, so if no handover of the other kind starts. */
  method Analyze(log: seq<Line>) returns (inProcs: nat, outProcs: nat, ghost procs: seq<Proc>)
    ensures AllProved(log, procs)
    ensures inProcs == CountOf(procs, true) && outProcs == CountOf(procs, false)
    ensures inProcs == Run(log).1 && outProcs == Run(log).2
    ensures Optimal(true, log, inProcs) && Optimal(false, log, outProcs)
  {
    var state := Idle;
    inProcs, outProcs := 0, 0;
    for i := 0 to |log|
      invariant Run(log[..i]) == (state, inProcs, outProcs)
    {
      assert log[..i + 1] == log[..i] + [log[i]];
      RunSnoc(log[..i], log[i]);
      var ins, outs;
      state, ins, outs := OneLine(state, log[i]);
      inProcs, outProcs := inProcs + ins, outProcs + outs;
    }
    assert log[..|log|] == log;
    procs := CountsAreWitnessed(log);
    CountsAreOptimal(true, log);
    CountsAreOptimal(false, log);
  }

  /** Optimality is lost after a source-side acknowledgement: until the release nothing is counted,
      however many incoming handovers the log goes on to contain. */
  lemma {:induction false} StuckOnSource(log: seq<Line>, more: seq<Line>)
    requires Run(log).0 == SourceAck && forall line :: line in more ==> ContextRelease !in line
    ensures Run(log + more) == Run(log)
    decreases |more|
  {
    if more == [] {
      assert log + more == log;
    } else {
      var n := |more| - 1;
      StuckOnSource(log, more[..n]);
      assert log + more == log + more[..n] + [more[n]];
      assert more[n] in more;
      ReleaseCounts(log + more[..n], more[n]);
    }
  }

  /** Such a log, with a complete incoming handover that is missed. */
  lemma MissedHandover()
    ensures var log: seq<Line> := [{HoReqAck}] + [{HoReq}, {RecfgComplete}, {PathSwitchReq}, {PathSwitchAck}];
      Embeds(true, log, 4) && Run(log).1 == 0
  {
    var ack: seq<Line>, more: seq<Line> := [{HoReqAck}], [{HoReq}, {RecfgComplete}, {PathSwitchReq}, {PathSwitchAck}];
    assert ack[..0] == [];
    assert Run(ack) == (SourceAck, 0, 0);
    StuckOnSource(ack, more);
    assert Carries(true, ack + more, [1, 2, 3, 4]);
    assert |[1, 2, 3, 4]| == 4;
  }
}
