/** `hashCombine` and `callExports` of scripts/fuzz_shell.js, which change a seed, a list and its tasks. */
module FuzzShell {
  import opened Wrappers
  import opened MachineInts
  import opened HashSeed
  import opened TaskScheduler

  datatype Func = CallExport | FinishPromise

  /** What the loop queues; deferring a task changes it in place. */
  class Task {
    const index: nat
    var func: Func
    var deferred: bool

    constructor (index: nat)
      ensures this.index == index && Shows(Pending(index, false))
    {
      this.index := index;
      func := CallExport;
      deferred := false;
    }

    ghost predicate Shows(p: Pending)
      reads this
    {
      p == Pending(index, deferred) && deferred == func.FinishPromise?
    }
  }

  ghost predicate ShowsAll(tasks: seq<Task>, pending: seq<Pending>)
    reads tasks
  {
    |tasks| == |pending| && forall k :: 0 <= k < |tasks| ==> tasks[k].Shows(pending[k])
  }

  ghost predicate HasTask(tasks: seq<Task>, e: nat) {
    exists k :: 0 <= k < |tasks| && tasks[k].index == e
  }

  ghost predicate NoAlias(tasks: seq<Task>) {
    forall j, k :: 0 <= j < k < |tasks| ==> tasks[j] != tasks[k]
  }

  lemma ShowsRest(tasks: seq<Task>, pending: seq<Pending>, i: nat)
    requires i < |tasks| && NoAlias(tasks) && ShowsAll(tasks, pending)
    ensures var rest := Removed(tasks, i);
            && NoAlias(rest) && ShowsAll(rest, Removed(pending, i))
            && tasks[i] !in rest && forall t :: t in rest ==> t in tasks
    ensures tasks[i].Shows(pending[i])
  {
  }

  lemma ShowsLonger(tasks: seq<Task>, pending: seq<Pending>, task: Task, p: Pending)
    requires NoAlias(tasks) && ShowsAll(tasks, pending) && task !in tasks && task.Shows(p)
    ensures NoAlias(tasks + [task]) && ShowsAll(tasks + [task], pending + [p])
  {
  }

  lemma ShowsReversed(tasks: seq<Task>, pending: seq<Pending>)
    requires NoAlias(tasks) && ShowsAll(tasks, pending)
    ensures NoAlias(Reversed(tasks)) && ShowsAll(Reversed(tasks), Reversed(pending))
    ensures forall t :: t in Reversed(tasks) ==> t in tasks
  {
  }

  class Shell {
    const jspi: bool
    const wasm2js: bool
    const world: World
    var hashSeed: Option<int>

    constructor (jspi: bool, wasm2js: bool, world: World)
      ensures this.jspi == jspi && this.wasm2js == wasm2js && this.world == world
      ensures hashSeed.None?
    {
      this.jspi := jspi;
      this.wasm2js := wasm2js;
      this.world := world;
      hashSeed := None;
    }

    /** The script asserts that there is a seed. */
    method HashCombine(value: int) returns (bits: nat)
      requires hashSeed.Some?
      modifies this
      ensures hashSeed == Some(NextSeed(old(hashSeed).value, value))
      ensures bits == Combined(old(hashSeed).value, value) && bits < Pow2(32)
    {
      assert Pow2(2) == 4;
      hide BitXor, Pow2, Pattern, FromPattern, ShiftLeft;
      var seed := hashSeed.value;
      var mixed := value + 0x9e3779b9 + ShiftLeft(INT32, seed, 6) + Pattern(INT32, seed) / Pow2(2);
      hashSeed := Some(FromPattern(INT32, BitXor(Pattern(INT32, seed), Pattern(INT32, mixed))));
      bits := Pattern(INT32, hashSeed.value);
      StoredSeed(seed, value);
      CombinedInRange(seed, value);
    }

    method RandomBits() returns (bits: nat)
      requires hashSeed.Some?
      modifies this
      ensures hashSeed == Some(NextSeed(old(hashSeed).value, -1))
      ensures bits == Combined(old(hashSeed).value, -1)
    {
      bits := HashCombine(-1);
    }

    /** The random numbers that imports take while other code runs. */
    method TakeDraws(draws: nat)
      modifies this
      ensures hashSeed == Draws(old(hashSeed), draws)
    {
      if hashSeed.None? {
        return;
      }
      hide NextSeed, Combined;
      var k := 0;
      while k < draws
        invariant k <= draws
        invariant hashSeed.Some? && Draws(hashSeed, draws - k) == Draws(old(hashSeed), draws)
      {
        var _ := RandomBits();
        k := k + 1;
      }
    }

    /** task.func() */
    method Invoke(task: Task, log: seq<Event>, now: nat) returns (longer: seq<Event>, outcome: Outcome)
      requires task.Shows(Pending(task.index, task.deferred))
      modifies this
      ensures var p := Pending(task.index, task.deferred);
              && outcome == CallOf(p, now, world).outcome
              && hashSeed == Draws(old(hashSeed), CallOf(p, now, world).draws)
              && longer == log + [if p.deferred then Resumed(p.index) else Called(p.index)]
    {
      match task.func
      case CallExport =>
        longer := log + [Called(task.index)];
        var call := world.call(now);
        TakeDraws(call.draws);
        outcome := call.outcome;
      case FinishPromise =>
        longer := log + [Resumed(task.index)];
        outcome := Promise;
    }

    /** The body of the loop after a task was chosen. */
    method Execute(task: Task, ordering: Option<int>, log: seq<Event>) returns (longer: seq<Event>, again: bool)
      requires task.Shows(Pending(task.index, task.deferred))
      requires hashSeed.Some? == ordering.Some?
      modifies this, task
      ensures var p := Pending(task.index, old(task.deferred));
              var ran := RunTask(p, old(hashSeed), |log|, jspi, world);
              && hashSeed == ran.seed && hashSeed.Some? == ordering.Some?
              && longer == log + ran.events && again == ran.deferred
              && task.Shows(if again then Pending(task.index, true) else p)
    {
      hide NextSeed, Combined, Draws, BitAnd;
      ghost var p := Pending(task.index, task.deferred);
      ghost var before := hashSeed;
      var index, now := task.index, |log|;
      RunTaskShape(p, hashSeed, now, jspi, world);
      DrawsKeepSeed(hashSeed, CallOf(p, now, world).draws);
      longer := log + [Started(index, task.deferred)];
      var outcome;
      longer, outcome := Invoke(task, longer, now);
      again := false;
      if outcome.Threw? {
        longer := longer + [Ended(index, Exception)];
        return;
      }
      var how := if outcome == Value(false) then Silent else Noted;
      if jspi {
        if ordering.Some? && !task.deferred && outcome.Promise? {
          var bits := RandomBits();
          AndOne(bits);
          if BitAnd(bits, 1) != 0 {
            longer := longer + [Deferred(index)];
            task.func := FinishPromise;
            task.deferred := true;
            again := true;
            return;
          }
        }
        var wait := world.wait(now);
        TakeDraws(wait.draws);
        if outcome.Promise? {
          match wait.settled
          case Rejected =>
            longer := longer + [Ended(index, Exception)];
            return;
          case Resolved(defined) =>
            how := if defined then Noted else Silent;
        }
      }
      longer := longer + [Ended(index, how)];
    }

    /** One task for every export that can be called, in list order. */
    method BuildTasks(exports: seq<Kind>) returns (tasks: seq<Task>)
      ensures forall k :: 0 <= k < |tasks| ==> fresh(tasks[k])
      ensures NoAlias(tasks) && ShowsAll(tasks, Tasks(Callables(exports, wasm2js)))
      ensures forall e: nat :: HasTask(tasks, e) <==>
                e < |exports| && (exports[e].Function? || (exports[e].Global? && !wasm2js))
    {
      tasks := [];
      for i := 0 to |exports|
        invariant forall k :: 0 <= k < |tasks| ==> fresh(tasks[k])
        invariant NoAlias(tasks) && ShowsAll(tasks, Tasks(Callables(exports[..i], wasm2js)))
      {
        assert exports[..i + 1][..i] == exports[..i];
        if !Callable(exports[i], wasm2js) {
          continue;
        }
        var task := new Task(i);
        tasks := tasks + [task];
      }
      assert exports[..|exports|] == exports;
      TaskIndexes(tasks, exports);
    }

    lemma TaskIndexes(tasks: seq<Task>, exports: seq<Kind>)
      requires ShowsAll(tasks, Tasks(Callables(exports, wasm2js)))
      ensures forall e: nat :: HasTask(tasks, e) <==>
                e < |exports| && (exports[e].Function? || (exports[e].Global? && !wasm2js))
    {
      forall e: nat ensures HasTask(tasks, e) <==>
        e < |exports| && (exports[e].Function? || (exports[e].Global? && !wasm2js))
      {
        TaskIndex(tasks, exports, e);
        CallablesExact(exports, wasm2js, e);
      }
    }

    lemma TaskIndex(tasks: seq<Task>, exports: seq<Kind>, e: nat)
      requires ShowsAll(tasks, Tasks(Callables(exports, wasm2js)))
      ensures HasTask(tasks, e) <==> e in Callables(exports, wasm2js)
    {
      hide Callables;
      var c := Callables(exports, wasm2js);
      if e in c {
        var k :| 0 <= k < |c| && c[k] == e;
        assert tasks[k].Shows(Tasks(c)[k]);
      }
      if HasTask(tasks, e) {
        var k :| 0 <= k < |tasks| && tasks[k].index == e;
        assert tasks[k].Shows(Tasks(c)[k]);
      }
    }

    /** The position of the next task in a list of `count`. */
    method Choose(ordering: Option<int>, count: nat) returns (i: nat)
      requires count > 0 && hashSeed.Some? == ordering.Some?
      modifies this
      ensures i == Chosen(old(hashSeed), count) && i < count
      ensures hashSeed == SeedAfterChoice(old(hashSeed), count) && hashSeed.Some? == ordering.Some?
    {
      hide NextSeed, Combined;
      if ordering.None? {
        i := count - 1;
      } else {
        var bits := HashCombine(count);
        i := bits % count;
      }
    }

    /** One round of the loop: a task is taken out, executed, and perhaps queued again. */
    method Next(tasks: seq<Task>, ordering: Option<int>, log: seq<Event>, ghost s: State)
      returns (rest: seq<Task>, longer: seq<Event>)
      requires tasks != [] && NoAlias(tasks) && ShowsAll(tasks, s.tasks)
      requires hashSeed == s.seed && log == s.log && hashSeed.Some? == ordering.Some?
      modifies this, tasks
      ensures forall k :: 0 <= k < |rest| ==> rest[k] in tasks
      ensures s.tasks != [] && NoAlias(rest) && ShowsAll(rest, Step(s, jspi, world).tasks)
      ensures hashSeed.Some? == ordering.Some?
      ensures hashSeed == Step(s, jspi, world).seed && longer == Step(s, jspi, world).log
    {
      assert |tasks| == |s.tasks|;
      var i := Choose(ordering, |tasks|);
      ShowsRest(tasks, s.tasks, i);
      ghost var p, others := s.tasks[i], Removed(s.tasks, i);
      var task := tasks[i];
      StepParts(s, jspi, world);
      hide Step, RunTask, Chosen, SeedAfterChoice, ShowsAll, NoAlias, Removed;
      assert task in tasks && task.Shows(p);
      rest := Removed(tasks, i);
      assert task !in rest && ShowsAll(rest, others) && NoAlias(rest);
      var again;
      longer, again := Execute(task, ordering, log);
      if again {
        ShowsLonger(rest, others, task, Pending(p.index, true));
        rest := rest + [task];
      }
    }

    /** callExports */
    method CallExports(exports: seq<Kind>, ordering: Option<int>) returns (log: seq<Event>)
      modifies this
      ensures log == Run(Initial(exports, wasm2js, ordering), jspi, world).log
      ensures forall e: nat :: Shown(exports, wasm2js, Project(log, e), e)
    {
      EachTaskOnce(exports, wasm2js, ordering, jspi, world);
      hide Shown, Project;
      hide Run, Measure, Step, NoAlias, Callables, Tasks, Reversed;
      hashSeed := ordering;
      var tasks := BuildTasks(exports);
      ShowsReversed(tasks, Tasks(Callables(exports, wasm2js)));
      tasks := Reversed(tasks);
      log := [];
      ghost var s := Initial(exports, wasm2js, ordering);
      hide Initial;
      ghost var end := Run(s, jspi, world);
      while tasks != []
        invariant forall k :: 0 <= k < |tasks| ==> fresh(tasks[k])
        invariant NoAlias(tasks) && ShowsAll(tasks, s.tasks)
        invariant hashSeed.Some? == ordering.Some?
        invariant hashSeed == s.seed && log == s.log && Run(s, jspi, world) == end
        decreases Measure(s.tasks)
      {
        tasks, log := Next(tasks, ordering, log, s);
        StepDecreases(s, jspi, world);
        RunStep(s, jspi, world);
        s := Step(s, jspi, world);
      }
      RunEmpty(s, jspi, world);
    }
  }
}
