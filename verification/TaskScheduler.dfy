/**
 The task loop of `callExports` in scripts/fuzz_shell.js as a state machine, and what holds in
 every run of it.
 */
module TaskScheduler {
  import opened Wrappers
  import opened HashSeed

  // ---- What runs do -------------------------------------------------------------------

  datatype Outcome = Threw | Promise | Value(defined: bool)

  datatype Settled = Rejected | Resolved(defined: bool)

  /** One call of an export: how it ended, and how many random numbers its imports took. */
  datatype Call = Call(outcome: Outcome, draws: nat)

  datatype Wait = Wait(settled: Settled, draws: nat)

  /** Everything the scheduler does not decide: what a call or an await at a moment does. */
  datatype World = World(call: nat -> Call, wait: nat -> Wait)

  datatype Ending = Exception | Noted | Silent

  datatype Event =
    | Started(index: nat, again: bool)
    | Called(index: nat)
    | Deferred(index: nat)
    | Resumed(index: nat)
    | Ended(index: nat, how: Ending)

  datatype Pending = Pending(index: nat, deferred: bool)

  datatype State = State(seed: Option<int>, tasks: seq<Pending>, log: seq<Event>)

  datatype Ran = Ran(seed: Option<int>, events: seq<Event>, deferred: bool)

  // ---- One task -----------------------------------------------------------------------

  function EndOf(defined: bool): Ending {
    if defined then Noted else Silent
  }

  function EndOfValue(outcome: Outcome): Ending {
    match outcome
    case Threw => Exception
    case Promise => Noted
    case Value(defined) => EndOf(defined)
  }

  function EndOfAwait(outcome: Outcome, wait: Wait): Ending {
    match outcome
    case Promise => (match wait.settled case Rejected => Exception case Resolved(defined) => EndOf(defined))
    case _ => EndOfValue(outcome)
  }

  /** Calling the export, or resuming the promise that an earlier call left. */
  function CallOf(p: Pending, now: nat, world: World): Call {
    if p.deferred then Call(Promise, 0) else world.call(now)
  }

  predicate MayDefer(p: Pending, seed: Option<int>, jspi: bool, call: Call) {
    jspi && seed.Some? && !p.deferred && call.outcome.Promise?
  }

  function RunTask(p: Pending, seed: Option<int>, now: nat, jspi: bool, world: World): Ran {
    var started := [Started(p.index, p.deferred), if p.deferred then Resumed(p.index) else Called(p.index)];
    var call := CallOf(p, now, world);
    var called := Draws(seed, call.draws);
    if call.outcome.Threw? || !jspi then
      Ran(called, started + [Ended(p.index, EndOfValue(call.outcome))], false)
    else if MayDefer(p, called, jspi, call) && Combined(called.value, -1) % 2 == 1 then
      Ran(Some(NextSeed(called.value, -1)), started + [Deferred(p.index)], true)
    else
      var asked := if MayDefer(p, called, jspi, call) then Some(NextSeed(called.value, -1)) else called;
      var wait := world.wait(now);
      Ran(Draws(asked, wait.draws), started + [Ended(p.index, EndOfAwait(call.outcome, wait))], false)
  }

  // ---- The loop -----------------------------------------------------------------------

  function Removed<T>(s: seq<T>, i: nat): seq<T>
    requires i < |s|
  {
    s[..i] + s[i + 1..]
  }

  /** The position of the task to run next: the last one, or a random one. */
  function Chosen(seed: Option<int>, count: nat): (i: nat)
    requires count > 0
    ensures i < count
  {
    if seed.None? then count - 1 else Combined(seed.value, count) % count
  }

  function SeedAfterChoice(seed: Option<int>, count: nat): Option<int> {
    if seed.None? then None else Some(NextSeed(seed.value, count))
  }

  function Step(s: State, jspi: bool, world: World): State
    requires s.tasks != []
  {
    var i := Chosen(s.seed, |s.tasks|);
    var p := s.tasks[i];
    var ran := RunTask(p, SeedAfterChoice(s.seed, |s.tasks|), |s.log|, jspi, world);
    State(ran.seed, Removed(s.tasks, i) + if ran.deferred then [Pending(p.index, true)] else [], s.log + ran.events)
  }

  lemma StepParts(s: State, jspi: bool, world: World)
    requires s.tasks != []
    ensures var i := Chosen(s.seed, |s.tasks|);
            var ran := RunTask(s.tasks[i], SeedAfterChoice(s.seed, |s.tasks|), |s.log|, jspi, world);
            var after := Step(s, jspi, world);
            && after.seed == ran.seed && after.log == s.log + ran.events
            && after.tasks == if ran.deferred then Removed(s.tasks, i) + [Pending(s.tasks[i].index, true)]
                              else Removed(s.tasks, i)
  {
    hide RunTask, SeedAfterChoice, Removed;
    var i := Chosen(s.seed, |s.tasks|);
    assert Removed(s.tasks, i) + [] == Removed(s.tasks, i);
  }

  /** Two for every task that was not deferred yet, one for every task that was. */
  function Measure(tasks: seq<Pending>): nat {
    if tasks == [] then 0
    else Measure(tasks[..|tasks| - 1]) + if tasks[|tasks| - 1].deferred then 1 else 2
  }

  lemma {:induction false} MeasureConcat(a: seq<Pending>, b: seq<Pending>)
    ensures Measure(a + b) == Measure(a) + Measure(b)
    decreases |b|
  {
    if b == [] {
      assert a + b == a;
    } else {
      assert (a + b)[..|a + b| - 1] == a + b[..|b| - 1];
      MeasureConcat(a, b[..|b| - 1]);
    }
  }

  lemma MeasureOne(p: Pending)
    ensures Measure([p]) == if p.deferred then 1 else 2
  {
    assert [p][..0] == [];
  }

  lemma MeasureRemoved(tasks: seq<Pending>, i: nat)
    requires i < |tasks|
    ensures Measure(Removed(tasks, i)) == Measure(tasks) - if tasks[i].deferred then 1 else 2
  {
    hide Measure;
    assert tasks == tasks[..i] + ([tasks[i]] + tasks[i + 1..]);
    MeasureConcat(tasks[..i], [tasks[i]] + tasks[i + 1..]);
    MeasureConcat([tasks[i]], tasks[i + 1..]);
    MeasureConcat(tasks[..i], tasks[i + 1..]);
    MeasureOne(tasks[i]);
  }

  lemma StepDecreases(s: State, jspi: bool, world: World)
    requires s.tasks != []
    ensures Measure(Step(s, jspi, world).tasks) < Measure(s.tasks)
  {
    hide Measure, Combined, NextSeed, Draws;
    var i := Chosen(s.seed, |s.tasks|);
    hide Chosen;
    var p := s.tasks[i];
    MeasureRemoved(s.tasks, i);
    MeasureOne(Pending(p.index, true));
    MeasureConcat(Removed(s.tasks, i), [Pending(p.index, true)]);
    assert Removed(s.tasks, i) + [] == Removed(s.tasks, i);
  }

  /** The whole loop. */
  function Run(s: State, jspi: bool, world: World): State
    decreases Measure(s.tasks)
  {
    if s.tasks == [] then s
    else
      StepDecreases(s, jspi, world);
      Run(Step(s, jspi, world), jspi, world)
  }

  lemma RunStep(s: State, jspi: bool, world: World)
    requires s.tasks != []
    ensures Run(Step(s, jspi, world), jspi, world) == Run(s, jspi, world)
  {
  }

  lemma RunEmpty(s: State, jspi: bool, world: World)
    requires s.tasks == []
    ensures Run(s, jspi, world) == s
  {
  }

  // ---- The tasks to begin with --------------------------------------------------------

  datatype Kind = Function | Global | Other

  /** A function can be called, and so can a global, through a function that logs it. */
  predicate Callable(kind: Kind, wasm2js: bool) {
    kind.Function? || (kind.Global? && !wasm2js)
  }

  /** The positions of the callable exports, in order. */
  function Callables(exports: seq<Kind>, wasm2js: bool): seq<nat> {
    if exports == [] then []
    else
      var last := |exports| - 1;
      Callables(exports[..last], wasm2js) + if Callable(exports[last], wasm2js) then [last] else []
  }

  function Tasks(indexes: seq<nat>): seq<Pending> {
    seq(|indexes|, k requires 0 <= k < |indexes| => Pending(indexes[k], false))
  }

  function Reversed<T>(s: seq<T>): (r: seq<T>)
    ensures |r| == |s| && forall k :: 0 <= k < |s| ==> r[k] == s[|s| - 1 - k]
  {
    seq(|s|, k requires 0 <= k < |s| => s[|s| - 1 - k])
  }

  function Initial(exports: seq<Kind>, wasm2js: bool, ordering: Option<int>): State {
    State(ordering, Reversed(Tasks(Callables(exports, wasm2js))), [])
  }

  // ---- The history of one task ------------------------------------------------------

  function Project(log: seq<Event>, e: nat): seq<Event> {
    if log == [] then []
    else
      var last := log[|log| - 1];
      Project(log[..|log| - 1], e) + if last.index == e then [last] else []
  }

  predicate AllAbout(events: seq<Event>, e: nat) {
    forall k :: 0 <= k < |events| ==> events[k].index == e
  }

  lemma {:induction false} ProjectMore(log: seq<Event>, events: seq<Event>, about: nat, e: nat)
    requires AllAbout(events, about)
    ensures Project(log + events, e) == Project(log, e) + if about == e then events else []
    decreases |events|
  {
    if events == [] {
      assert log + events == log;
    } else {
      var n := |events| - 1;
      assert (log + events)[..|log + events| - 1] == log + events[..n];
      ProjectMore(log, events[..n], about, e);
      assert events == events[..n] + [events[n]];
    }
  }

  function Waiting(e: nat): seq<Event> {
    [Started(e, false), Called(e), Deferred(e)]
  }

  /** Called once, deferred at most once, and finished once. */
  ghost predicate Complete(history: seq<Event>, e: nat) {
    exists how: Ending ::
      || history == [Started(e, false), Called(e), Ended(e, how)]
      || history == Waiting(e) + [Started(e, true), Resumed(e), Ended(e, how)]
  }

  predicate Distinct(tasks: seq<Pending>) {
    forall j, k :: 0 <= j < k < |tasks| ==> tasks[j].index != tasks[k].index
  }

  ghost predicate HistoryOf(tasks: seq<Pending>, all: set<nat>, history: seq<Event>, e: nat) {
    if e !in all || Pending(e, false) in tasks then history == []
    else if Pending(e, true) in tasks then history == Waiting(e)
    else Complete(history, e)
  }

  ghost predicate Consistent(s: State, all: set<nat>) {
    && Distinct(s.tasks)
    && (forall p :: p in s.tasks ==> p.index in all)
    && (forall e :: HistoryOf(s.tasks, all, Project(s.log, e), e))
  }

  lemma RunTaskShape(p: Pending, seed: Option<int>, now: nat, jspi: bool, world: World)
    ensures var ran := RunTask(p, seed, now, jspi, world);
            && |ran.events| == 3 && AllAbout(ran.events, p.index)
            && (ran.deferred ==> !p.deferred && ran.events == Waiting(p.index))
            && (!ran.deferred ==> Complete((if p.deferred then Waiting(p.index) else []) + ran.events, p.index))
    ensures RunTask(p, seed, now, jspi, world).deferred ==> jspi && seed.Some?
    ensures RunTask(p, seed, now, jspi, world).seed.Some? == seed.Some?
  {
    hide Combined, NextSeed, Draws;
    var call := CallOf(p, now, world);
    DrawsKeepSeed(seed, call.draws);
    DrawsKeepSeed(Draws(seed, call.draws), world.wait(now).draws);
    if Draws(seed, call.draws).Some? {
      DrawsKeepSeed(Some(NextSeed(Draws(seed, call.draws).value, -1)), world.wait(now).draws);
    }
    var ran := RunTask(p, seed, now, jspi, world);
    if !ran.deferred {
      var how := ran.events[2].how;
      var started := [Started(p.index, p.deferred), if p.deferred then Resumed(p.index) else Called(p.index)];
      assert ran.events == started + [Ended(p.index, how)];
    }
  }

  lemma RemovedMembers(tasks: seq<Pending>, i: nat, q: Pending)
    requires i < |tasks| && Distinct(tasks)
    ensures q in Removed(tasks, i) <==> q in tasks && q.index != tasks[i].index
    ensures Distinct(Removed(tasks, i))
  {
    if q in tasks && q.index != tasks[i].index {
      var k :| 0 <= k < |tasks| && tasks[k] == q;
      assert q == if k < i then tasks[..i][k] else tasks[i + 1..][k - i - 1];
    }
  }

  /** What a step does to the history of one task. */
  lemma StepHistory(s: State, jspi: bool, world: World, all: set<nat>, e: nat)
    requires s.tasks != [] && Consistent(s, all)
    ensures var after := Step(s, jspi, world); HistoryOf(after.tasks, all, Project(after.log, e), e)
  {
    hide Combined, NextSeed, Draws, RunTask, Complete, Project, Removed, Waiting;
    var i := Chosen(s.seed, |s.tasks|);
    hide Chosen;
    var p := s.tasks[i];
    var seed := SeedAfterChoice(s.seed, |s.tasks|);
    var ran := RunTask(p, seed, |s.log|, jspi, world);
    RunTaskShape(p, seed, |s.log|, jspi, world);
    ProjectMore(s.log, ran.events, p.index, e);
    RemovedMembers(s.tasks, i, Pending(e, false));
    RemovedMembers(s.tasks, i, Pending(e, true));
    assert HistoryOf(s.tasks, all, Project(s.log, e), e);
    if e != p.index {
      assert Project(s.log, e) + [] == Project(s.log, e);
    } else {
      assert p == Pending(e, p.deferred);
      NotTwice(s.tasks, i, e);
      assert [] + ran.events == ran.events;
    }
  }

  lemma NotTwice(tasks: seq<Pending>, i: nat, e: nat)
    requires i < |tasks| && Distinct(tasks) && tasks[i].index == e
    ensures Pending(e, !tasks[i].deferred) !in tasks
  {
  }

  lemma StepTasks(s: State, jspi: bool, world: World, all: set<nat>)
    requires s.tasks != [] && Consistent(s, all)
    ensures var after := Step(s, jspi, world).tasks; Distinct(after) && forall p :: p in after ==> p.index in all
  {
    hide Combined, NextSeed, Draws, RunTask, Removed, HistoryOf;
    var i := Chosen(s.seed, |s.tasks|);
    hide Chosen;
    RemovedMembers(s.tasks, i, s.tasks[i]);
    forall q ensures q in Removed(s.tasks, i) <==> q in s.tasks && q.index != s.tasks[i].index {
      RemovedMembers(s.tasks, i, q);
    }
  }

  lemma StepConsistent(s: State, jspi: bool, world: World, all: set<nat>)
    requires s.tasks != [] && Consistent(s, all)
    ensures Consistent(Step(s, jspi, world), all)
  {
    hide Step, HistoryOf;
    StepTasks(s, jspi, world, all);
    var after := Step(s, jspi, world);
    forall e ensures HistoryOf(after.tasks, all, Project(after.log, e), e) {
      StepHistory(s, jspi, world, all, e);
    }
  }

  lemma {:induction false} RunConsistent(s: State, jspi: bool, world: World, all: set<nat>)
    requires Consistent(s, all)
    ensures Consistent(Run(s, jspi, world), all) && Run(s, jspi, world).tasks == []
    decreases Measure(s.tasks)
  {
    hide Step, Consistent, Measure;
    if s.tasks != [] {
      StepDecreases(s, jspi, world);
      StepConsistent(s, jspi, world, all);
      RunConsistent(Step(s, jspi, world), jspi, world, all);
    }
  }

  // ---- Every run ------------------------------------------------------------------------

  lemma {:induction false} CallablesExact(exports: seq<Kind>, wasm2js: bool, e: nat)
    ensures e in Callables(exports, wasm2js) <==> e < |exports| && Callable(exports[e], wasm2js)
    decreases |exports|
  {
    hide Callable;
    if exports != [] {
      var last := |exports| - 1;
      CallablesExact(exports[..last], wasm2js, e);
      assert e < last ==> exports[..last][e] == exports[e];
    }
  }

  predicate Ascending(c: seq<nat>, bound: nat) {
    && (forall k :: 0 <= k < |c| ==> c[k] < bound)
    && (forall j, k :: 0 <= j < k < |c| ==> c[j] < c[k])
  }

  lemma {:induction false} CallablesAscend(exports: seq<Kind>, wasm2js: bool)
    ensures Ascending(Callables(exports, wasm2js), |exports|)
    decreases |exports|
  {
    hide Callable;
    if exports != [] {
      var last := |exports| - 1;
      var before := Callables(exports[..last], wasm2js);
      CallablesAscend(exports[..last], wasm2js);
      assert Callables(exports, wasm2js) == before || Callables(exports, wasm2js) == before + [last];
    }
  }

  lemma InitialConsistent(exports: seq<Kind>, wasm2js: bool, ordering: Option<int>, all: set<nat>)
    requires forall e :: e in all <==> e in Callables(exports, wasm2js)
    ensures Consistent(Initial(exports, wasm2js, ordering), all)
  {
    hide Callables;
    var c := Callables(exports, wasm2js);
    CallablesAscend(exports, wasm2js);
    var tasks := Initial(exports, wasm2js, ordering).tasks;
    assert Distinct(tasks);
    forall e | e in all ensures Pending(e, false) in tasks {
      var k :| 0 <= k < |c| && c[k] == e;
      assert tasks[|c| - 1 - k] == Pending(e, false);
    }
  }

  /** What the log shows of an export: nothing, or one call from its start to its end. */
  ghost predicate Shown(exports: seq<Kind>, wasm2js: bool, history: seq<Event>, e: nat) {
    if e >= |exports| then history == []
    else
      match exports[e]
      case Function => Complete(history, e)
      case Global => if wasm2js then history == [] else Complete(history, e)
      case Other => history == []
  }

  /**
   Whatever the seed and the behaviour of the calls, the loop ends with no task left. Each function, and each
   global unless in wasm2js, is called once, deferred at most once and finished once; nothing else is touched.
   */
  lemma EachTaskOnce(exports: seq<Kind>, wasm2js: bool, ordering: Option<int>, jspi: bool, world: World)
    ensures var s := Run(Initial(exports, wasm2js, ordering), jspi, world);
            && s.tasks == []
            && forall e: nat :: Shown(exports, wasm2js, Project(s.log, e), e)
  {
    hide Run, Callables, Complete, Project;
    var all := set e | e in Callables(exports, wasm2js);
    InitialConsistent(exports, wasm2js, ordering, all);
    var initial := Initial(exports, wasm2js, ordering);
    hide Initial;
    RunConsistent(initial, jspi, world, all);
    var s := Run(initial, jspi, world);
    forall e: nat ensures Shown(exports, wasm2js, Project(s.log, e), e) {
      CallablesExact(exports, wasm2js, e);
      assert HistoryOf(s.tasks, all, Project(s.log, e), e);
    }
  }

  // ---- Without an ordering ---------------------------------------------------------------

  /** The log of calls that run to their end one after the other. */
  ghost predicate OneAfterAnother(log: seq<Event>, indexes: seq<nat>) {
    && |log| == 3 * |indexes|
    && forall k :: 0 <= k < |indexes| ==>
         && log[3 * k] == Started(indexes[k], false)
         && log[3 * k + 1] == Called(indexes[k])
         && log[3 * k + 2].Ended? && log[3 * k + 2].index == indexes[k]
  }

  predicate Undeferred(tasks: seq<Pending>) {
    forall p :: p in tasks ==> !p.deferred
  }

  /** The tasks in the order in which popping the last one takes them. */
  function PopOrder(tasks: seq<Pending>): seq<nat> {
    if tasks == [] then [] else [tasks[|tasks| - 1].index] + PopOrder(tasks[..|tasks| - 1])
  }

  lemma {:induction false} PopOrderAt(tasks: seq<Pending>)
    ensures |PopOrder(tasks)| == |tasks|
    ensures forall k :: 0 <= k < |tasks| ==> PopOrder(tasks)[k] == tasks[|tasks| - 1 - k].index
  {
    if tasks != [] {
      PopOrderAt(tasks[..|tasks| - 1]);
    }
  }

  lemma OneMore(log: seq<Event>, before: seq<nat>, i: nat, how: Ending)
    requires OneAfterAnother(log, before)
    ensures OneAfterAnother(log + [Started(i, false), Called(i), Ended(i, how)], before + [i])
  {
    var indexes := before + [i];
    var longer := log + [Started(i, false), Called(i), Ended(i, how)];
    forall k | 0 <= k < |indexes|
      ensures && longer[3 * k] == Started(indexes[k], false)
              && longer[3 * k + 1] == Called(indexes[k])
              && longer[3 * k + 2].Ended? && longer[3 * k + 2].index == indexes[k]
    {
      if k < |before| {
        assert indexes[k] == before[k];
      }
    }
  }

  lemma UnorderedStep(s: State, jspi: bool, world: World, before: seq<nat>)
    requires s.tasks != [] && Undeferred(s.tasks) && s.seed.None? && OneAfterAnother(s.log, before)
    ensures var after := Step(s, jspi, world);
            var last := |s.tasks| - 1;
            && after.seed.None? && after.tasks == s.tasks[..last]
            && OneAfterAnother(after.log, before + [s.tasks[last].index])
  {
    hide Combined, NextSeed, Draws, OneAfterAnother;
    var last := |s.tasks| - 1;
    var p := s.tasks[last];
    var ran := RunTask(p, None, |s.log|, jspi, world);
    RunTaskShape(p, None, |s.log|, jspi, world);
    hide RunTask;
    assert [] + ran.events == ran.events;
    assert Removed(s.tasks, last) + [] == s.tasks[..last];
    assert ran.events == [Started(p.index, false), Called(p.index), Ended(p.index, ran.events[2].how)];
    OneMore(s.log, before, p.index, ran.events[2].how);
  }

  lemma {:induction false} UnorderedRun(s: State, jspi: bool, world: World, before: seq<nat>)
    requires Undeferred(s.tasks) && s.seed.None? && OneAfterAnother(s.log, before)
    ensures OneAfterAnother(Run(s, jspi, world).log, before + PopOrder(s.tasks))
    decreases |s.tasks|
  {
    hide OneAfterAnother, Step, Measure;
    if s.tasks == [] {
      assert before + [] == before;
    } else {
      UnorderedStep(s, jspi, world, before);
      var after := Step(s, jspi, world);
      var index := s.tasks[|s.tasks| - 1].index;
      UnorderedRun(after, jspi, world, before + [index]);
      assert (before + [index]) + PopOrder(after.tasks) == before + ([index] + PopOrder(after.tasks));
    }
  }

  /**
   Without an ordering the functions, and the globals unless in wasm2js, are called in list order, each
   ending before the next begins.
   */
  lemma ListOrder(exports: seq<Kind>, wasm2js: bool, jspi: bool, world: World) returns (indexes: seq<nat>)
    ensures OneAfterAnother(Run(Initial(exports, wasm2js, None), jspi, world).log, indexes)
    ensures forall j, k :: 0 <= j < k < |indexes| ==> indexes[j] < indexes[k]
    ensures forall e: nat ::
              e in indexes <==> e < |exports| && (exports[e].Function? || (exports[e].Global? && !wasm2js))
  {
    indexes := Callables(exports, wasm2js);
    CallablesAscend(exports, wasm2js);
    forall e: nat
      ensures e in indexes <==> e < |exports| && (exports[e].Function? || (exports[e].Global? && !wasm2js))
    {
      CallablesExact(exports, wasm2js, e);
    }
    hide Run, Callables, PopOrder;
    var s := Initial(exports, wasm2js, None);
    UnorderedRun(s, jspi, world, []);
    PopOrderAt(s.tasks);
    assert [] + PopOrder(s.tasks) == Callables(exports, wasm2js);
  }

  // ---- With an ordering ------------------------------------------------------------------------

  /**
   With an ordering, the task at the hash of the number of tasks is taken out and started. If it calls its
   export and gets a promise, under promise integration, an odd random number puts it at the end of the list.
   */
  lemma OrderedStep(s: State, jspi: bool, world: World) returns (i: nat, deferred: bool)
    requires s.tasks != [] && s.seed.Some?
    ensures i < |s.tasks| && i == Combined(s.seed.value, |s.tasks|) % |s.tasks|
    ensures deferred <==>
              && jspi && !s.tasks[i].deferred && world.call(|s.log|).outcome == Promise
              && OddNext(Draws(Some(NextSeed(s.seed.value, |s.tasks|)), world.call(|s.log|).draws))
    ensures var now, p, after := |s.log|, s.tasks[i], Step(s, jspi, world);
            && |after.log| == now + 3 && after.log[now] == Started(p.index, p.deferred)
            && (after.log[now + 2] == Deferred(p.index) <==> deferred)
            && after.tasks == s.tasks[..i] + s.tasks[i + 1..] + if deferred then [Pending(p.index, true)] else []
  {
    i := Chosen(s.seed, |s.tasks|);
    hide Combined, NextSeed, Draws, Chosen;
    var p := s.tasks[i];
    var seed := SeedAfterChoice(s.seed, |s.tasks|);
    var ran := RunTask(p, seed, |s.log|, jspi, world);
    deferred := ran.deferred;
    RunTaskShape(p, seed, |s.log|, jspi, world);
    RunTaskTruthful(p, seed, |s.log|, jspi, world);
    DrawsKeepSeed(seed, CallOf(p, |s.log|, world).draws);
  }

  /** The next random number is odd. */
  ghost predicate OddNext(seed: Option<int>) {
    seed.Some? && Combined(seed.value, -1) % 2 == 1
  }

  // ---- Without promise integration ------------------------------------------------------

  /** Nothing is deferred unless both an ordering and promise integration are on. */
  lemma {:induction false} NothingDeferred(s: State, jspi: bool, world: World)
    requires !jspi || s.seed.None?
    requires Undeferred(s.tasks) && forall event :: event in s.log ==> !event.Deferred?
    ensures forall event :: event in Run(s, jspi, world).log ==> !event.Deferred?
    decreases Measure(s.tasks)
  {
    hide Combined, NextSeed, Draws, Measure, RunTask, Complete;
    if s.tasks != [] {
      StepDecreases(s, jspi, world);
      var i := Chosen(s.seed, |s.tasks|);
      var p := s.tasks[i];
      hide Chosen;
      var seed := SeedAfterChoice(s.seed, |s.tasks|);
      RunTaskShape(p, seed, |s.log|, jspi, world);
      var ran := RunTask(p, seed, |s.log|, jspi, world);
      NoneDeferred([] + ran.events, p.index);
      assert [] + ran.events == ran.events;
      NothingDeferred(Step(s, jspi, world), jspi, world);
    }
  }

  lemma NoneDeferred(history: seq<Event>, e: nat)
    requires Complete(history, e) && |history| <= 3
    ensures forall event :: event in history ==> !event.Deferred?
  {
  }

  // ---- What the log reports -------------------------------------------------------------------

  /** The call threw, or the promise that was awaited was rejected. */
  predicate Failed(again: bool, jspi: bool, call: Call, wait: Wait) {
    || (!again && call.outcome.Threw?)
    || (jspi && (again || call.outcome.Promise?) && wait.settled.Rejected?)
  }

  /** There is no value to report: the call, or the promise that was awaited, gave none. */
  predicate Undefined(again: bool, jspi: bool, call: Call, wait: Wait) {
    if again || call.outcome.Promise? then jspi && wait.settled == Resolved(false) else call.outcome == Value(false)
  }

  /** Three events of one run, which began at the moment `now`. */
  ghost predicate Truthful(started: Event, second: Event, last: Event, now: nat, jspi: bool, world: World) {
    var call, wait := world.call(now), world.wait(now);
    && started.Started? && started.index == second.index == last.index
    && second == (if started.again then Resumed(started.index) else Called(started.index))
    && match last
       case Deferred(_) => !started.again && jspi && call.outcome.Promise?
       case Ended(_, how) =>
         && (how == Exception <==> Failed(started.again, jspi, call, wait))
         && (how == Silent <==> Undefined(started.again, jspi, call, wait))
       case _ => false
  }

  ghost predicate AllTruthful(log: seq<Event>, jspi: bool, world: World) {
    && |log| % 3 == 0
    && forall j :: 0 <= j < |log| / 3 ==> Truthful(log[3 * j], log[3 * j + 1], log[3 * j + 2], 3 * j, jspi, world)
  }

  lemma RunTaskTruthful(p: Pending, seed: Option<int>, now: nat, jspi: bool, world: World)
    ensures var events := RunTask(p, seed, now, jspi, world).events;
            |events| == 3 && Truthful(events[0], events[1], events[2], now, jspi, world)
  {
    hide Combined, NextSeed, Draws;
  }

  lemma LongerTruthful(log: seq<Event>, events: seq<Event>, jspi: bool, world: World)
    requires AllTruthful(log, jspi, world) && |events| == 3
    requires Truthful(events[0], events[1], events[2], |log|, jspi, world)
    ensures AllTruthful(log + events, jspi, world)
  {
    hide Truthful;
    var longer := log + events;
    forall j | 0 <= j < |longer| / 3
      ensures Truthful(longer[3 * j], longer[3 * j + 1], longer[3 * j + 2], 3 * j, jspi, world)
    {
      if j < |log| / 3 {
        assert Truthful(log[3 * j], log[3 * j + 1], log[3 * j + 2], 3 * j, jspi, world);
      }
    }
  }

  /** Every run is reported as it went: deferred only with a promise, failed exactly if it threw or was rejected. */
  lemma {:induction false} LogIsTruthful(s: State, jspi: bool, world: World)
    requires AllTruthful(s.log, jspi, world)
    ensures AllTruthful(Run(s, jspi, world).log, jspi, world)
    decreases Measure(s.tasks)
  {
    hide Combined, NextSeed, Draws, RunTask, Measure, AllTruthful, Truthful, Removed;
    if s.tasks != [] {
      StepDecreases(s, jspi, world);
      StepParts(s, jspi, world);
      var i := Chosen(s.seed, |s.tasks|);
      var p := s.tasks[i];
      var seed := SeedAfterChoice(s.seed, |s.tasks|);
      hide Chosen;
      RunTaskTruthful(p, seed, |s.log|, jspi, world);
      LongerTruthful(s.log, RunTask(p, seed, |s.log|, jspi, world).events, jspi, world);
      hide Step;
      LogIsTruthful(Step(s, jspi, world), jspi, world);
    }
  }
}
