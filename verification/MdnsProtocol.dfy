/**
 The main thread and the mDNS worker as a state machine: every step is one critical section.
 No task is lost or doubled in any interleaving, results keep the order of acceptance, and no
 wake-up is missed.
 */
module MdnsProtocol {
  import opened Bytes
  import opened MdnsWorker

  /** Where the worker is; `signalled` tells that the condition variable has been signalled since it slept. */
  datatype Worker = Checking | Sleeping(signalled: bool) | Working(task: Task) | Exited

  /** A task the worker is done with, and whether its result found a place. */
  datatype Done = Done(task: Task, resolved: Option<seq<byte>>, kept: bool)

  /** The queues and the worker, and the history of the run. */
  datatype Sys = Sys(q: Queues, worker: Worker, accepted: seq<Task>, done: seq<Done>, drained: seq<Result>, discarded: seq<Task>)

  datatype Action =
    | Check
    | Wake
    | Finish(resolved: Option<seq<byte>>)
    | Enqueue(mac: Option<seq<byte>>, ip: Option<seq<byte>>)
    | Drain(outMax: int)
    | Stop

  function Init(): Sys { Sys(Queues([], [], false, true), Checking, [], [], [], []) }

  predicate Enabled(s: Sys, a: Action) {
    match a
    case Check => s.worker.Checking?
    case Wake => s.worker.Sleeping?
    case Finish(_) => s.worker.Working?
    case _ => true
  }

  function Signalled(w: Worker): Worker { if w.Sleeping? then Sleeping(true) else w }

  /** One step. A sleeping worker may wake without a signal, as POSIX allows. */
  function Step(s: Sys, a: Action): Sys
    requires Enabled(s, a)
  {
    match a
    case Check =>
      (match FoundIn(s.q)
       case MustWait => s.(worker := Sleeping(false))
       case MustStop => s.(q := AfterFound(s.q), worker := Exited, discarded := s.discarded + s.q.tasks)
       case Next(task) => s.(q := AfterFound(s.q), worker := Working(task)))
    case Wake => s.(worker := Checking)
    case Finish(resolved) =>
      var task := s.worker.task;
      s.(q := Pushed(s.q, Report(task, resolved)), worker := Checking,
         done := s.done + [Done(task, resolved, |s.q.results| < QUEUE_SIZE)])
    case Enqueue(mac, ip) =>
      (match Enqueued(s.q, mac, ip)
       case None => s
       case Some(q) => s.(q := q, worker := Signalled(s.worker), accepted := s.accepted + [q.tasks[|q.tasks| - 1]]))
    case Drain(outMax) =>
      var n := Drainable(s.q, outMax);
      s.(q := s.q.(results := s.q.results[n..]), drained := s.drained + s.q.results[..n])
    case Stop =>
      if s.q.started then s.(q := s.q.(stop := true, started := false), worker := Signalled(s.worker)) else s
  }

  function TasksOf(done: seq<Done>): (r: seq<Task>)
    ensures |r| == |done|
  {
    if done == [] then [] else TasksOf(done[..|done| - 1]) + [done[|done| - 1].task]
  }

  /** The results that found a place, in the order they were made. */
  function ResultsOf(done: seq<Done>): (r: seq<Result>)
    ensures |r| <= |done|
  {
    if done == [] then []
    else
      var d := done[|done| - 1];
      ResultsOf(done[..|done| - 1]) + if d.kept then [Report(d.task, d.resolved)] else []
  }

  function InHand(w: Worker): seq<Task> { if w.Working? then [w.task] else [] }

  predicate Inv(s: Sys) {
    && s.accepted == TasksOf(s.done) + InHand(s.worker) + s.q.tasks + s.discarded
    && s.drained + s.q.results == ResultsOf(s.done)
    && |s.q.tasks| <= QUEUE_SIZE && |s.q.results| <= QUEUE_SIZE
    && (s.worker == Sleeping(false) ==> s.q.tasks == [] && !s.q.stop)
    && s.q.started == !s.q.stop
    && (s.discarded != [] ==> s.worker.Exited?)
    && (s.worker.Exited? ==> s.q.stop && s.q.tasks == [])
  }

  lemma CheckKeeps(s: Sys)
    requires Inv(s) && Enabled(s, Check)
    ensures Inv(Step(s, Check))
  {
    hide TasksOf, ResultsOf, Report;
    var d := TasksOf(s.done);
    assert s.accepted == d + s.q.tasks;
    if s.q.stop {
      assert d + s.q.tasks == d + [] + [] + s.q.tasks;
    } else if s.q.tasks != [] {
      assert d + s.q.tasks == d + [s.q.tasks[0]] + s.q.tasks[1..] + [];
    }
  }

  lemma OneMoreDone(done: seq<Done>, d: Done)
    ensures TasksOf(done + [d]) == TasksOf(done) + [d.task]
    ensures ResultsOf(done + [d]) == ResultsOf(done) + if d.kept then [Report(d.task, d.resolved)] else []
  {
    hide Report;
    assert (done + [d])[..|done|] == done;
  }

  lemma FinishKeeps(s: Sys, resolved: Option<seq<byte>>)
    requires Inv(s) && Enabled(s, Finish(resolved))
    ensures Inv(Step(s, Finish(resolved)))
  {
    hide TasksOf, ResultsOf, Report;
    var task := s.worker.task;
    var d := Done(task, resolved, |s.q.results| < QUEUE_SIZE);
    var r := Report(task, resolved);
    OneMoreDone(s.done, d);
    assert TasksOf(s.done) + [task] + s.q.tasks + [] == TasksOf(s.done) + [task] + [] + s.q.tasks + [];
    if d.kept { assert s.drained + (s.q.results + [r]) == (s.drained + s.q.results) + [r]; }
  }

  lemma MainKeeps(s: Sys, a: Action)
    requires Inv(s) && (a.Enqueue? || a.Drain? || a.Stop? || a.Wake?) && Enabled(s, a)
    ensures Inv(Step(s, a))
  {
    hide TasksOf, ResultsOf, Report, Field;
    if a.Drain? {
      var n := Drainable(s.q, a.outMax);
      assert s.drained + s.q.results[..n] + s.q.results[n..] == s.drained + s.q.results;
    }
  }

  lemma StepKeeps(s: Sys, a: Action)
    requires Inv(s) && Enabled(s, a)
    ensures Inv(Step(s, a))
  {
    hide Inv, Step;
    match a
    case Check => CheckKeeps(s);
    case Finish(resolved) => FinishKeeps(s, resolved);
    case _ => MainKeeps(s, a);
  }

  /** Runs a list of steps; one that is not enabled does not happen. */
  function Run(s: Sys, actions: seq<Action>): Sys
    decreases |actions|
  {
    if actions == [] then s else Run(if Enabled(s, actions[0]) then Step(s, actions[0]) else s, actions[1..])
  }

  lemma {:induction false} RunKeeps(s: Sys, actions: seq<Action>)
    requires Inv(s)
    ensures Inv(Run(s, actions))
    decreases |actions|
  {
    hide Inv, Step, Enabled;
    if actions != [] {
      var a := actions[0];
      if Enabled(s, a) { StepKeeps(s, a); }
      RunKeeps(if Enabled(s, a) then Step(s, a) else s, actions[1..]);
    }
  }

  /** In every run each accepted task is, in order, done, in hand, in the ring or discarded at the
      stop; what was drained and what waits are the kept results in the order of acceptance; and a
      worker that sleeps without a signal has nothing to do. */
  lemma EveryRun(actions: seq<Action>)
    ensures var s := Run(Init(), actions);
            && s.accepted == TasksOf(s.done) + InHand(s.worker) + s.q.tasks + s.discarded
            && s.drained + s.q.results == ResultsOf(s.done)
            && |s.q.tasks| <= 16 && |s.q.results| <= 16
            && (s.worker == Sleeping(false) ==> s.q.tasks == [] && !s.q.stop)
            && (s.discarded != [] ==> s.worker.Exited? && s.q.stop)
  {
    assert Inv(Init());
    RunKeeps(Init(), actions);
  }

  // ----- Whose results they are

  /** The arguments of the calls that enqueue a task, in order. */
  function Arguments(s: Sys, actions: seq<Action>): seq<(seq<byte>, seq<byte>)>
    decreases |actions|
  {
    if actions == [] then []
    else
      var a := actions[0];
      Argument(s, a) + Arguments(if Enabled(s, a) then Step(s, a) else s, actions[1..])
  }

  /** The answers of the resolver, one for each task the worker had in hand. */
  function Answers(s: Sys, actions: seq<Action>): seq<Option<seq<byte>>>
    decreases |actions|
  {
    if actions == [] then []
    else
      var a := actions[0];
      Answer(s, a) + Answers(if Enabled(s, a) then Step(s, a) else s, actions[1..])
  }

  /** `t` is `s` up to its first NUL, but at most `n` bytes of it. */
  predicate IsCut(t: seq<byte>, s: seq<byte>, n: nat) {
    t <= s && |t| <= n && 0 !in t && (|t| == n || |t| == |s| || s[|t|] == 0)
  }

  lemma FieldIsCut(s: seq<byte>, n: nat)
    ensures IsCut(Field(s, n + 1), s, n)
    ensures 0 !in s && |s| <= n ==> Field(s, n + 1) == s
  {
    CStrNulFree(s);
    hide CStr;
  }

  function Cuts(args: seq<(seq<byte>, seq<byte>)>): (r: seq<Task>)
    ensures |r| == |args|
    ensures forall i :: 0 <= i < |args| ==> IsCut(r[i].mac, args[i].0, 17) && IsCut(r[i].ip, args[i].1, 39)
  {
    if args == [] then []
    else
      var (mac, ip) := args[0];
      FieldIsCut(mac, 17);
      FieldIsCut(ip, 39);
      var rest := Cuts(args[1..]);
      assert forall i :: 1 <= i < |args| ==> args[i] == args[1..][i - 1] && ([Task(Field(mac, 18), Field(ip, 40))] + rest)[i] == rest[i - 1];
      [Task(Field(mac, 18), Field(ip, 40))] + rest
  }

  function Argument(s: Sys, a: Action): seq<(seq<byte>, seq<byte>)> {
    if a.Enqueue? && a.mac.Some? && a.ip.Some? && s.q.started && |s.q.tasks| < 16 then [(a.mac.value, a.ip.value)] else []
  }

  function Answer(s: Sys, a: Action): seq<Option<seq<byte>>> {
    if a.Finish? && s.worker.Working? then [a.resolved] else []
  }

  lemma {:induction false} AcceptedAreArguments(s: Sys, actions: seq<Action>)
    ensures Run(s, actions).accepted == s.accepted + Cuts(Arguments(s, actions))
    decreases |actions|
  {
    hide Step, Enabled, Argument, Cuts;
    if actions == [] {
      NoCuts();
    } else {
      var a := actions[0];
      var t := if Enabled(s, a) then Step(s, a) else s;
      AcceptedAreArguments(t, actions[1..]);
      AcceptedStep(s, a);
      CutsConcat(Argument(s, a), Arguments(t, actions[1..]));
    }
  }

  lemma NoCuts()
    ensures Cuts([]) == []
  {
  }

  lemma {:induction false} DoneAreAnswers(s: Sys, actions: seq<Action>)
    ensures Resolved(Run(s, actions).done) == Resolved(s.done) + Answers(s, actions)
    decreases |actions|
  {
    hide Step, Enabled, Answer, Resolved;
    if actions != [] {
      var a := actions[0];
      AnswerStep(s, a);
      DoneAreAnswers(if Enabled(s, a) then Step(s, a) else s, actions[1..]);
    }
  }

  function Resolved(done: seq<Done>): seq<Option<seq<byte>>> { seq(|done|, i requires 0 <= i < |done| => done[i].resolved) }

  lemma CutsConcat(first: seq<(seq<byte>, seq<byte>)>, rest: seq<(seq<byte>, seq<byte>)>)
    requires |first| <= 1
    ensures Cuts(first + rest) == Cuts(first) + Cuts(rest)
  {
    if first == [] {
      assert first + rest == rest;
    } else {
      assert (first + rest)[1..] == rest;
      assert Cuts(first[1..]) == [];
    }
  }

  lemma AcceptedStep(s: Sys, a: Action)
    ensures |Argument(s, a)| <= 1
    ensures (if Enabled(s, a) then Step(s, a) else s).accepted == s.accepted + Cuts(Argument(s, a))
  {
    hide Field, Report;
    if a.Enqueue? && a.mac.Some? && a.ip.Some? { assert Cuts([(a.mac.value, a.ip.value)][1..]) == []; }
  }

  lemma AnswerStep(s: Sys, a: Action)
    ensures Resolved((if Enabled(s, a) then Step(s, a) else s).done) == Resolved(s.done) + Answer(s, a)
  {
    hide Field, Report;
  }

  /** What the main thread gets for the arguments of a call and the answer to it. */
  predicate Reports(r: Result, mac: seq<byte>, answer: Option<seq<byte>>) {
    && IsCut(r.mac, mac, 17)
    && r.success == answer.Some?
    && IsCut(r.hostname, if answer.Some? then answer.value else [], 63)
    && r.src == if answer.Some? then ['m' as int, 'd' as int, 'n' as int, 's' as int] else ['m' as int, 'a' as int, 'c' as int]
  }

  lemma ReportReports(task: Task, mac: seq<byte>, resolved: Option<seq<byte>>)
    requires IsCut(task.mac, mac, 17)
    ensures Reports(Report(task, resolved), mac, resolved)
  {
    assert 0 !in task.mac && |task.mac| <= 17;
    hide IsCut;
    FieldIsCut(task.mac, 17);
    FieldIsCut(if resolved.Some? then resolved.value else [], 63);
    SourceNames();
    hide Field;
  }

  lemma SourceNames()
    ensures Field(Ascii("mdns"), 16) == ['m' as int, 'd' as int, 'n' as int, 's' as int]
    ensures Field(Ascii("mac"), 16) == ['m' as int, 'a' as int, 'c' as int]
  {
    FieldIsCut(Ascii("mdns"), 15);
    FieldIsCut(Ascii("mac"), 15);
    hide Field, IsCut;
  }

  /** Where the kept ones of the finished tasks stand. */
  lemma {:induction false} KeptPlaces(done: seq<Done>) returns (at: seq<nat>)
    ensures |at| == |ResultsOf(done)| && Rising(at, |done|)
    ensures forall k :: 0 <= k < |at| ==> IsKeptAt(done, at[k], ResultsOf(done)[k])
    decreases |done|
  {
    hide Report;
    if done == [] {
      at := [];
    } else {
      var last := |done| - 1;
      var before := KeptPlaces(done[..last]);
      at := if done[last].kept then before + [last] else before;
      forall k | 0 <= k < |at| ensures IsKeptAt(done, at[k], ResultsOf(done)[k]) {
        if k < |before| { assert IsKeptAt(done[..last], before[k], ResultsOf(done[..last])[k]); }
      }
    }
  }

  predicate Rising(at: seq<nat>, end: nat) {
    (forall j, k :: 0 <= j < k < |at| ==> at[j] < at[k]) && forall k :: 0 <= k < |at| ==> at[k] < end
  }

  predicate IsKeptAt(done: seq<Done>, i: nat, r: Result) {
    i < |done| && done[i].kept && r == Report(done[i].task, done[i].resolved)
  }

  lemma {:induction false} TaskAt(done: seq<Done>, i: nat)
    requires i < |done|
    ensures TasksOf(done)[i] == done[i].task
    decreases |done|
  {
    if i < |done| - 1 { TaskAt(done[..|done| - 1], i); }
  }

  /**
   Main result: in every run the results, drained or waiting, are those of some of the calls that
   were accepted, in their order: each carries the address that call gave and the answer the
   resolver gave to it, cut to its fields.
   */
  lemma ResultsAnswerCalls(actions: seq<Action>) returns (at: seq<nat>)
    ensures var s, args, answers := Run(Init(), actions), Arguments(Init(), actions), Answers(Init(), actions);
            && |at| == |s.drained + s.q.results| && Rising(at, |answers|) && |answers| <= |args|
            && forall k :: 0 <= k < |at| ==>
                 at[k] < |answers| && Reports((s.drained + s.q.results)[k], args[at[k]].0, answers[at[k]])
  {
    hide Step, Enabled, Report, Reports, IsCut, Field, Arguments, Answers, Cuts;
    assert Inv(Init());
    RunKeeps(Init(), actions);
    AcceptedAreArguments(Init(), actions);
    DoneAreAnswers(Init(), actions);
    var s := Run(Init(), actions);
    hide Run;
    at := KeptPlaces(s.done);
    var results := s.drained + s.q.results;
    forall k | 0 <= k < |at| ensures Reports(results[k], Arguments(Init(), actions)[at[k]].0, Answers(Init(), actions)[at[k]]) {
      var i := at[k];
      assert IsKeptAt(s.done, i, ResultsOf(s.done)[k]);
      assert Resolved(s.done)[i] == s.done[i].resolved;
      TaskAt(s.done, i);
      assert s.accepted[i] == s.done[i].task;
      ReportReports(s.done[i].task, Arguments(Init(), actions)[i].0, s.done[i].resolved);
    }
  }

  // ----- Stopping

  /** How many steps of its own the worker is away from its exit. */
  function Rank(w: Worker): nat {
    match w
    case Exited => 0
    case Checking => 1
    case _ => 2
  }

  predicate Own(a: Action) { a.Check? || a.Wake? || a.Finish? }

  function OwnSteps(s: Sys, actions: seq<Action>): nat
    decreases |actions|
  {
    if actions == [] then 0
    else if Enabled(s, actions[0]) then (if Own(actions[0]) then 1 else 0) + OwnSteps(Step(s, actions[0]), actions[1..])
    else OwnSteps(s, actions[1..])
  }

  /** Once stop is set, two steps of the worker end it, whatever the main thread does between
      them; and until then one of them can always be taken without waiting for another signal. */
  lemma {:induction false} StopEnds(s: Sys, actions: seq<Action>)
    requires Inv(s) && s.q.stop
    ensures OwnSteps(s, actions) <= 2
    ensures var t := Run(s, actions);
            && t.q.stop && (OwnSteps(s, actions) == 2 ==> t.worker.Exited?)
            && (t.worker.Exited? || t.worker.Checking? || t.worker.Working? || t.worker == Sleeping(true))
  {
    StopRank(s, actions);
    RunKeeps(s, actions);
  }

  lemma {:induction false} StopRank(s: Sys, actions: seq<Action>)
    requires Inv(s) && s.q.stop
    ensures Run(s, actions).q.stop && OwnSteps(s, actions) + Rank(Run(s, actions).worker) <= Rank(s.worker)
    decreases |actions|
  {
    hide Inv;
    if actions != [] {
      var a := actions[0];
      if Enabled(s, a) {
        StepKeeps(s, a);
        StopStep(s, a);
        hide Step;
        StopRank(Step(s, a), actions[1..]);
      } else {
        StopRank(s, actions[1..]);
      }
    }
  }

  lemma StopStep(s: Sys, a: Action)
    requires Inv(s) && s.q.stop && Enabled(s, a)
    ensures Step(s, a).q.stop && (if Own(a) then 1 else 0) + Rank(Step(s, a).worker) <= Rank(s.worker)
  {
    hide TasksOf, ResultsOf, Report, Field;
  }

  // ----- Results that find no place

  /** Tasks accepted whose results are not yet drained. */
  function Outstanding(s: Sys): nat { |s.q.tasks| + |InHand(s.worker)| + |s.q.results| }

  predicate Careful(s: Sys, actions: seq<Action>)
    decreases |actions|
  {
    actions == []
    || ((actions[0].Enqueue? ==> Outstanding(s) < 16)
        && Careful(if Enabled(s, actions[0]) then Step(s, actions[0]) else s, actions[1..]))
  }

  /** No result is dropped as long as the main thread has at most sixteen tasks under way. */
  lemma {:induction false} CarefulLosesNothing(s: Sys, actions: seq<Action>)
    requires Inv(s) && Outstanding(s) <= 16 && |ResultsOf(s.done)| == |s.done| && Careful(s, actions)
    ensures var t := Run(s, actions); |t.drained| + |t.q.results| == |t.done|
    decreases |actions|
  {
    hide Inv, ResultsOf, Step;
    if actions == [] {
      AllHaveResults(s);
    } else {
      var a := actions[0];
      if Enabled(s, a) {
        StepKeeps(s, a);
        CarefulStep(s, a);
      }
      CarefulLosesNothing(if Enabled(s, a) then Step(s, a) else s, actions[1..]);
    }
  }

  lemma AllHaveResults(s: Sys)
    requires Inv(s)
    ensures |s.drained| + |s.q.results| == |ResultsOf(s.done)|
  {
    assert |s.drained + s.q.results| == |s.drained| + |s.q.results|;
  }

  lemma CarefulStep(s: Sys, a: Action)
    requires Inv(s) && Outstanding(s) <= 16 && |ResultsOf(s.done)| == |s.done| && Enabled(s, a)
    requires a.Enqueue? ==> Outstanding(s) < 16
    ensures var t := Step(s, a); Outstanding(t) <= 16 && |ResultsOf(t.done)| == |t.done|
  {
    hide TasksOf, ResultsOf, Report, Field;
    if a.Finish? { OneMoreDone(s.done, Done(s.worker.task, a.resolved, true)); }
  }

  /** The worker on its own until it has nothing left; `resolve` is what the lookups answer. */
  function Idle(s: Sys, resolve: Task -> Option<seq<byte>>): Sys
    decreases |s.q.tasks|, Rank(s.worker), s.worker.Sleeping?
  {
    if s.worker.Working? then Idle(Step(s, Finish(resolve(s.worker.task))), resolve)
    else if s.q.tasks == [] || s.q.stop then s
    else if s.worker.Sleeping? then Idle(Step(s, Wake), resolve)
    else if s.worker.Checking? then Idle(Step(s, Check), resolve)
    else s
  }

  /** Left alone, the worker finishes everything, and exactly the results beyond sixteen are lost:
      a full task ring and one task in hand already lose one. */
  lemma {:induction false} IdleLosesTheExcess(s: Sys, resolve: Task -> Option<seq<byte>>)
    requires Inv(s) && !s.q.stop
    ensures var t := Idle(s, resolve);
            && t.q.tasks == [] && InHand(t.worker) == []
            && |t.done| == |s.done| + |s.q.tasks| + |InHand(s.worker)|
            && |t.q.results| == if Outstanding(s) <= 16 then Outstanding(s) else 16
    decreases |s.q.tasks|, Rank(s.worker), s.worker.Sleeping?
  {
    hide TasksOf, ResultsOf, Report, Field;
    if s.worker.Working? {
      var a := Finish(resolve(s.worker.task));
      StepKeeps(s, a);
      hide Inv;
      IdleLosesTheExcess(Step(s, a), resolve);
    } else if s.q.tasks != [] {
      var a := if s.worker.Sleeping? then Wake else Check;
      StepKeeps(s, a);
      hide Inv;
      IdleLosesTheExcess(Step(s, a), resolve);
    }
  }
}
