/** What weaving keeps: the source lines in order, and every wanted item exactly once, in order. */
module CheckWeavingProofs {
  import opened Wrappers
  import opened CheckWeaving

  /** A generated check without its place: its form and its text. */
  type CheckText = (Label, string)

  function SourceLine(o: Out): seq<Line> {
    if o.Source? then [o.line] else []
  }

  function SourceLines(out: seq<Out>): seq<Line> {
    if out == [] then [] else SourceLine(out[0]) + SourceLines(out[1..])
  }

  function CheckOf(o: Out, prefix: string): seq<CheckText> {
    if o.Check? && o.prefix == prefix then [(o.form, o.text)] else []
  }

  function ChecksOf(out: seq<Out>, prefix: string): seq<CheckText> {
    if out == [] then [] else CheckOf(out[0], prefix) + ChecksOf(out[1..], prefix)
  }

  function KeptLine(line: Line): seq<Line> {
    if line.OldCheck? then [] else [line]
  }

  /** The source lines of a test, without the checks of an earlier run. */
  function KeptLines(lines: seq<Line>): seq<Line> {
    if lines == [] then [] else KeptLine(lines[0]) + KeptLines(lines[1..])
  }

  function ItemTexts(lines: seq<string>): seq<CheckText> {
    seq(|lines|, i requires 0 <= i < |lines| => (CheckFor("", "", lines, i).form, CheckFor("", "", lines, i).text))
  }

  function TextsIfWanted(cfg: Config, item: OutputItem): seq<CheckText> {
    if Wanted(cfg, item) then ItemTexts(item.lines) else []
  }

  /** The checks of the wanted items of a queue, in order. */
  function WantedTexts(cfg: Config, items: seq<OutputItem>): seq<CheckText> {
    if items == [] then []
    else TextsIfWanted(cfg, items[0]) + WantedTexts(cfg, items[1..])
  }

  /** The same for the queue of a prefix. */
  function PrefixTexts(cfg: Config, queues: seq<Queue>, prefix: string): seq<CheckText> {
    if queues == [] then []
    else
      (if queues[0].prefix == prefix then WantedTexts(cfg, queues[0].items) else [])
        + PrefixTexts(cfg, queues[1..], prefix)
  }

  /** The prefixes are the keys of a dictionary. */
  ghost predicate DistinctPrefixes(queues: seq<Queue>) {
    forall i, j :: 0 <= i < j < |queues| ==> queues[i].prefix != queues[j].prefix
  }

  // ---- Projections of a concatenation --------------------------------------------------

  lemma Assoc<T>(a: seq<T>, b: seq<T>, c: seq<T>)
    ensures a + (b + c) == (a + b) + c
  {
  }

  lemma {:induction false} SourceConcat(a: seq<Out>, b: seq<Out>)
    ensures SourceLines(a + b) == SourceLines(a) + SourceLines(b)
    decreases |a|
  {
    if a == [] {
      assert a + b == b;
    } else {
      hide SourceLine;
      assert (a + b)[0] == a[0] && (a + b)[1..] == a[1..] + b;
      SourceConcat(a[1..], b);
      Assoc(SourceLine(a[0]), SourceLines(a[1..]), SourceLines(b));
    }
  }

  lemma {:induction false} ChecksConcat(a: seq<Out>, b: seq<Out>, prefix: string)
    ensures ChecksOf(a + b, prefix) == ChecksOf(a, prefix) + ChecksOf(b, prefix)
    decreases |a|
  {
    if a == [] {
      assert a + b == b;
    } else {
      hide CheckOf;
      assert (a + b)[0] == a[0] && (a + b)[1..] == a[1..] + b;
      ChecksConcat(a[1..], b, prefix);
      Assoc(CheckOf(a[0], prefix), ChecksOf(a[1..], prefix), ChecksOf(b, prefix));
    }
  }

  lemma {:induction false} WantedConcat(cfg: Config, a: seq<OutputItem>, b: seq<OutputItem>)
    ensures WantedTexts(cfg, a + b) == WantedTexts(cfg, a) + WantedTexts(cfg, b)
    decreases |a|
  {
    if a == [] {
      assert a + b == b;
    } else {
      hide TextsIfWanted;
      assert (a + b)[0] == a[0] && (a + b)[1..] == a[1..] + b;
      WantedConcat(cfg, a[1..], b);
      Assoc(TextsIfWanted(cfg, a[0]), WantedTexts(cfg, a[1..]), WantedTexts(cfg, b));
    }
  }

  /** Source lines that are copied to the output carry no checks. */
  lemma {:induction false} SourcesProject(lines: seq<Line>, prefix: string)
    ensures SourceLines(Sources(lines)) == lines && ChecksOf(Sources(lines), prefix) == []
    decreases |lines|
  {
    if lines != [] {
      assert Sources(lines)[1..] == Sources(lines[1..]);
      SourcesProject(lines[1..], prefix);
    }
  }

  lemma OneSource(line: Line, prefix: string)
    ensures SourceLines([Source(line)]) == [line] && ChecksOf([Source(line)], prefix) == []
  {
    assert [Source(line)][1..] == [];
  }

  // ---- Blocks ------------------------------------------------------------------------------

  /** A run of checks for one prefix. */
  lemma {:induction false} ChecksOnly(out: seq<Out>, own: string, prefix: string)
    requires forall i :: 0 <= i < |out| ==> out[i].Check? && out[i].prefix == own
    ensures SourceLines(out) == []
    ensures ChecksOf(out, prefix) ==
            if own == prefix then seq(|out|, i requires 0 <= i < |out| => (out[i].form, out[i].text)) else []
    decreases |out|
  {
    if out != [] {
      ChecksOnly(out[1..], own, prefix);
    }
  }

  lemma BlockProjects(indent: string, own: string, lines: seq<string>, prefix: string)
    ensures SourceLines(Block(indent, own, lines)) == []
    ensures ChecksOf(Block(indent, own, lines), prefix) == if own == prefix then ItemTexts(lines) else []
  {
    ChecksOnly(Block(indent, own, lines), own, prefix);
  }

  lemma BlankProjects(prefix: string)
    ensures SourceLines([Blank]) == [] && ChecksOf([Blank], prefix) == []
  {
    assert [Blank][1..] == [];
  }

  /** The block of a wanted item, with the empty line before it. */
  lemma SeparatedBlock(indent: string, own: string, lines: seq<string>, first: bool, prefix: string)
    ensures var out := (if first then [] else [Blank]) + Block(indent, own, lines);
            && SourceLines(out) == []
            && ChecksOf(out, prefix) == if own == prefix then ItemTexts(lines) else []
  {
    hide Block, ItemTexts, SourceLines, ChecksOf;
    var gap := if first then [] else [Blank];
    var block := Block(indent, own, lines);
    NothingProjects(prefix);
    BlankProjects(prefix);
    BlockProjects(indent, own, lines, prefix);
    SourceConcat(gap, block);
    ChecksConcat(gap, block, prefix);
    Empties(SourceLines(block));
    Empties(ChecksOf(block, prefix));
  }

  lemma Empties<T>(a: seq<T>)
    ensures [] + a == a && a + [] == a
  {
  }

  lemma {:induction false} BlocksProject(cfg: Config, indent: string, own: string,
      items: seq<OutputItem>, first: bool, prefix: string)
    ensures SourceLines(Blocks(cfg, indent, own, items, first)) == []
    ensures ChecksOf(Blocks(cfg, indent, own, items, first), prefix) ==
            if own == prefix then WantedTexts(cfg, items) else []
    decreases |items|
  {
    hide Block, Wanted, ItemTexts, SourceLines, ChecksOf;
    NothingProjects(prefix);
    if items != [] {
      if Wanted(cfg, items[0]) {
        var head := (if first then [] else [Blank]) + Block(indent, own, items[0].lines);
        var more := Blocks(cfg, indent, own, items[1..], false);
        SeparatedBlock(indent, own, items[0].lines, first, prefix);
        BlocksProject(cfg, indent, own, items[1..], false, prefix);
        SourceConcat(head, more);
        ChecksConcat(head, more, prefix);
      } else {
        BlocksProject(cfg, indent, own, items[1..], first, prefix);
        Empties(WantedTexts(cfg, items[1..]));
      }
    }
  }

  lemma NothingProjects(prefix: string)
    ensures SourceLines([]) == [] && ChecksOf([], prefix) == []
  {
  }

  // ---- Named lines and the end of a module -------------------------------------------------

  lemma DueParts(cfg: Config, items: seq<OutputItem>, key: Key)
    ensures WantedTexts(cfg, Due(items, key)) + WantedTexts(cfg, items[|Due(items, key)|..]) == WantedTexts(cfg, items)
  {
    var due := Due(items, key);
    assert items == due + items[|due|..];
    WantedConcat(cfg, due, items[|due|..]);
  }

  lemma {:induction false} NoSuchPrefix(cfg: Config, queues: seq<Queue>, indent: string, key: Key, prefix: string)
    requires forall i :: 0 <= i < |queues| ==> queues[i].prefix != prefix
    ensures PrefixTexts(cfg, queues, prefix) == []
    ensures ChecksOf(DueBlocks(cfg, queues, indent, key), prefix) == []
    ensures PrefixTexts(cfg, Drained(queues, key), prefix) == []
    decreases |queues|
  {
    hide Blocks, Due;
    if queues != [] {
      NoSuchPrefix(cfg, queues[1..], indent, key, prefix);
      var head := Blocks(cfg, indent, queues[0].prefix, Due(queues[0].items, key), true);
      BlocksProject(cfg, indent, queues[0].prefix, Due(queues[0].items, key), true, prefix);
      ChecksConcat(head, DueBlocks(cfg, queues[1..], indent, key), prefix);
      assert Drained(queues, key)[1..] == Drained(queues[1..], key);
    }
  }

  lemma {:induction false} DueHasNoSources(cfg: Config, queues: seq<Queue>, indent: string, key: Key)
    ensures SourceLines(DueBlocks(cfg, queues, indent, key)) == []
    decreases |queues|
  {
    hide Blocks, Due;
    if queues != [] {
      var head := Blocks(cfg, indent, queues[0].prefix, Due(queues[0].items, key), true);
      BlocksProject(cfg, indent, queues[0].prefix, Due(queues[0].items, key), true, "");
      DueHasNoSources(cfg, queues[1..], indent, key);
      SourceConcat(head, DueBlocks(cfg, queues[1..], indent, key));
    }
  }

  /** What a named line emits for a prefix and what it leaves queued are what was queued, in order. */
  lemma {:induction false} DueConserves(cfg: Config, queues: seq<Queue>, indent: string, key: Key, prefix: string)
    requires DistinctPrefixes(queues)
    ensures ChecksOf(DueBlocks(cfg, queues, indent, key), prefix) + PrefixTexts(cfg, Drained(queues, key), prefix) ==
            PrefixTexts(cfg, queues, prefix)
    decreases |queues|
  {
    if queues == [] {
      NothingProjects(prefix);
    } else {
      DueFirst(cfg, queues, indent, key, prefix);
      hide Blocks, Due, WantedTexts, ChecksOf, DueBlocks, Drained, PrefixTexts;
      var own, items := queues[0].prefix, queues[0].items;
      BlocksProject(cfg, indent, own, Due(items, key), true, prefix);
      DueParts(cfg, items, key);
      if own == prefix {
        NoSuchPrefix(cfg, queues[1..], indent, key, prefix);
        Empties(WantedTexts(cfg, Due(items, key)));
        Empties(WantedTexts(cfg, items[|Due(items, key)|..]));
        Empties(WantedTexts(cfg, items));
      } else {
        DueConserves(cfg, queues[1..], indent, key, prefix);
        Empties(ChecksOf(DueBlocks(cfg, queues[1..], indent, key), prefix));
        Empties(PrefixTexts(cfg, Drained(queues[1..], key), prefix));
        Empties(PrefixTexts(cfg, queues[1..], prefix));
      }
    }
  }

  /** What the queue of the first prefix contributes. */
  lemma DueFirst(cfg: Config, queues: seq<Queue>, indent: string, key: Key, prefix: string)
    requires queues != []
    ensures var own, items := queues[0].prefix, queues[0].items;
            var due := Due(items, key);
            && ChecksOf(DueBlocks(cfg, queues, indent, key), prefix) ==
               ChecksOf(Blocks(cfg, indent, own, due, true), prefix)
               + ChecksOf(DueBlocks(cfg, queues[1..], indent, key), prefix)
            && PrefixTexts(cfg, queues, prefix) ==
               (if own == prefix then WantedTexts(cfg, items) else []) + PrefixTexts(cfg, queues[1..], prefix)
            && PrefixTexts(cfg, Drained(queues, key), prefix) ==
               (if own == prefix then WantedTexts(cfg, items[|due|..]) else [])
               + PrefixTexts(cfg, Drained(queues[1..], key), prefix)
  {
    hide Blocks, Due, WantedTexts, ChecksOf;
    var due := Due(queues[0].items, key);
    var head, more := Blocks(cfg, indent, queues[0].prefix, due, true), DueBlocks(cfg, queues[1..], indent, key);
    ChecksConcat(head, more, prefix);
    assert Drained(queues, key)[1..] == Drained(queues[1..], key);
  }

  lemma {:induction false} RemainingProjects(cfg: Config, queues: seq<Queue>, first: bool, prefix: string)
    ensures SourceLines(Remaining(cfg, queues, first)) == []
    ensures ChecksOf(Remaining(cfg, queues, first), prefix) == PrefixTexts(cfg, queues, prefix)
    decreases |queues|
  {
    hide Blocks, WantedTexts, ChecksOf, SourceLines, Wanted;
    NothingProjects(prefix);
    if queues != [] {
      var own, items := queues[0].prefix, queues[0].items;
      var still := first && forall i :: 0 <= i < |items| ==> !Wanted(cfg, items[i]);
      var head, more := Blocks(cfg, "", own, items, first), Remaining(cfg, queues[1..], still);
      BlocksProject(cfg, "", own, items, first, prefix);
      RemainingProjects(cfg, queues[1..], still, prefix);
      ChecksConcat(head, more, prefix);
      SourceConcat(head, more);
    }
  }

  // ---- One line after another ----------------------------------------------------------------

  /** Source lines written or pending, in order. */
  function Carried(s: State): seq<Line> {
    SourceLines(s.output) + s.annotations
  }

  /** Checks of a prefix written or queued, in order. */
  function Owed(cfg: Config, s: State, prefix: string): seq<CheckText> {
    ChecksOf(s.output, prefix) + PrefixTexts(cfg, s.queues, prefix)
  }

  /** Writing the pending annotations and the line after something that has no source lines. */
  lemma FlushProjects(output: seq<Out>, group: seq<Out>, annotations: seq<Line>, line: Line, prefix: string)
    requires SourceLines(group) == []
    ensures var after := output + group + Sources(annotations) + [Source(line)];
            && SourceLines(after) == SourceLines(output) + annotations + [line]
            && ChecksOf(after, prefix) == ChecksOf(output, prefix) + ChecksOf(group, prefix)
  {
    hide SourceLines, ChecksOf;
    var a, b := output + group, Sources(annotations);
    SourceConcat(a + b, [Source(line)]);
    SourceConcat(a, b);
    SourceConcat(output, group);
    ChecksConcat(a + b, [Source(line)], prefix);
    ChecksConcat(a, b, prefix);
    ChecksConcat(output, group, prefix);
    SourcesProject(annotations, prefix);
    OneSource(line, prefix);
    Empties(SourceLines(output));
    Empties(ChecksOf(a, prefix));
  }

  lemma StepConserves(cfg: Config, s: State, line: Line, prefix: string)
    requires DistinctPrefixes(s.queues)
    ensures Carried(Step(cfg, s, line)) == Carried(s) + KeptLine(line)
    ensures Owed(cfg, Step(cfg, s, line), prefix) == Owed(cfg, s, prefix)
    ensures DistinctPrefixes(Step(cfg, s, line).queues)
  {
    hide SourceLines, ChecksOf, Drained, DueBlocks, PrefixTexts;
    NothingProjects(prefix);
    match line
    case OldCheck(_) => Empties(Carried(s));
    case Annotation(_) => Assoc(SourceLines(s.output), s.annotations, [line]);
    case Other(_) =>
      Empties(s.output);
      FlushProjects(s.output, [], s.annotations, line, prefix);
      Empties(ChecksOf(s.output, prefix));
      Empties(SourceLines(s.output) + s.annotations + [line]);
    case Named(_, indent, key) =>
      var group := DueBlocks(cfg, s.queues, indent, key);
      DueHasNoSources(cfg, s.queues, indent, key);
      DueConserves(cfg, s.queues, indent, key, prefix);
      FlushProjects(s.output, group, s.annotations, line, prefix);
      Empties(SourceLines(s.output) + s.annotations + [line]);
      Assoc(ChecksOf(s.output, prefix), ChecksOf(group, prefix), PrefixTexts(cfg, Drained(s.queues, key), prefix));
  }

  lemma {:induction false} StepsConserve(cfg: Config, s: State, lines: seq<Line>, prefix: string)
    requires DistinctPrefixes(s.queues)
    ensures Carried(Steps(cfg, s, lines)) == Carried(s) + KeptLines(lines)
    ensures Owed(cfg, Steps(cfg, s, lines), prefix) == Owed(cfg, s, prefix)
    decreases |lines|
  {
    hide Carried, Owed, Step, KeptLine, DistinctPrefixes;
    if lines == [] {
      Empties(Carried(s));
    } else {
      StepConserves(cfg, s, lines[0], prefix);
      StepsConserve(cfg, Step(cfg, s, lines[0]), lines[1..], prefix);
      Assoc(Carried(s), KeptLine(lines[0]), KeptLines(lines[1..]));
    }
  }

  // ---- Annotations ----------------------------------------------------------------------------

  /** A line before which pending annotations are written. */
  predicate Releases(line: Line) {
    line.Other? || line.Named?
  }

  ghost predicate Released(lines: seq<Line>) {
    exists j :: 0 <= j < |lines| && Releases(lines[j])
  }

  /** Every annotation is followed by a source line that is not an annotation. */
  ghost predicate Settled(lines: seq<Line>) {
    forall i :: 0 <= i < |lines| && lines[i].Annotation? ==> Released(lines[i + 1..])
  }

  lemma ReleasedTail(lines: seq<Line>)
    requires lines != []
    ensures Released(lines) <==> Releases(lines[0]) || Released(lines[1..])
    ensures Settled(lines) <==> (lines[0].Annotation? ==> Released(lines[1..])) && Settled(lines[1..])
  {
    if j :| 0 <= j < |lines| && Releases(lines[j]) && j > 0 {
      assert lines[1..][j - 1] == lines[j];
    }
    if j :| 0 <= j < |lines[1..]| && Releases(lines[1..][j]) {
      assert lines[j + 1] == lines[1..][j];
    }
    assert lines[0 + 1..] == lines[1..];
    if Settled(lines) {
      forall i | 0 <= i < |lines[1..]| && lines[1..][i].Annotation? ensures Released(lines[1..][i + 1..]) {
        assert lines[i + 1].Annotation? && lines[i + 2..] == lines[1..][i + 1..];
      }
    }
    if Settled(lines[1..]) {
      forall i | 0 < i < |lines| && lines[i].Annotation? ensures Released(lines[i + 1..]) {
        assert lines[1..][i - 1].Annotation? && lines[i + 1..] == lines[1..][i..];
      }
    }
  }

  /** No annotation is pending after the lines exactly when all of them have been released. */
  lemma {:induction false} PendingAfter(cfg: Config, s: State, lines: seq<Line>)
    ensures Steps(cfg, s, lines).annotations == [] <==> Settled(lines) && (s.annotations == [] || Released(lines))
    decreases |lines|
  {
    hide Settled, Released, Drained, DueBlocks;
    if lines == [] {
      NothingSettled();
    } else {
      ReleasedTail(lines);
      PendingAfter(cfg, Step(cfg, s, lines[0]), lines[1..]);
    }
  }

  lemma NothingSettled()
    ensures Settled([]) && !Released([])
  {
  }

  // ---- The whole test -------------------------------------------------------------------------

  function AllKept(modules: seq<seq<Line>>, k: nat): seq<Line>
    requires k <= |modules|
  {
    if k == 0 then [] else AllKept(modules, k - 1) + KeptLines(modules[k - 1])
  }

  function AllTexts(cfg: Config, commandOutput: seq<seq<Queue>>, k: nat, prefix: string): seq<CheckText> {
    if k == 0 then []
    else AllTexts(cfg, commandOutput, k - 1, prefix) + PrefixTexts(cfg, QueuesOf(commandOutput, k - 1), prefix)
  }

  ghost predicate AllDistinct(commandOutput: seq<seq<Queue>>) {
    forall i :: 0 <= i < |commandOutput| ==> DistinctPrefixes(commandOutput[i])
  }

  lemma ModuleConserves(cfg: Config, s: State, queues: seq<Queue>, lines: seq<Line>, prefix: string)
    requires DistinctPrefixes(queues) && s.annotations == []
    ensures var t := WeaveModule(cfg, s, queues, lines).value;
            && SourceLines(t.output) + t.annotations == SourceLines(s.output) + KeptLines(lines)
            && ChecksOf(t.output, prefix) == ChecksOf(s.output, prefix) + PrefixTexts(cfg, queues, prefix)
            && (t.annotations == [] <==> Settled(lines))
  {
    hide SourceLines, ChecksOf, PrefixTexts, Steps, Remaining, Settled, KeptLines;
    var start := s.(queues := queues);
    var t := Steps(cfg, start, lines);
    StepsConserve(cfg, start, lines, prefix);
    PendingAfter(cfg, start, lines);
    RemainingProjects(cfg, t.queues, true, prefix);
    SourceConcat(t.output, Remaining(cfg, t.queues, true));
    ChecksConcat(t.output, Remaining(cfg, t.queues, true), prefix);
    Empties(SourceLines(t.output));
    Empties(SourceLines(s.output));
  }

  lemma {:induction false} ModulesConserve(cfg: Config, modules: seq<seq<Line>>,
      commandOutput: seq<seq<Queue>>, k: nat, prefix: string)
    requires k <= |modules| && AllDistinct(commandOutput)
    ensures WeaveModules(cfg, modules, commandOutput, k).Some? <==> forall i :: 0 <= i < k - 1 ==> Settled(modules[i])
    ensures WeaveModules(cfg, modules, commandOutput, k).Some? ==>
              var s := WeaveModules(cfg, modules, commandOutput, k).value;
              && SourceLines(s.output) + s.annotations == AllKept(modules, k)
              && ChecksOf(s.output, prefix) == AllTexts(cfg, commandOutput, k, prefix)
              && (s.annotations == [] <==> k == 0 || Settled(modules[k - 1]))
    decreases k
  {
    hide SourceLines, ChecksOf, PrefixTexts, Settled, KeptLines, WeaveModule, DistinctPrefixes;
    NoticeProjects(cfg.notice, prefix);
    if k > 0 {
      ModulesConserve(cfg, modules, commandOutput, k - 1, prefix);
      var before := WeaveModules(cfg, modules, commandOutput, k - 1);
      if before.Some? {
        StopsOrGoesOn(cfg, before.value, QueuesOf(commandOutput, k - 1), modules[k - 1]);
        if before.value.annotations == [] {
          NoQueues();
          ModuleConserves(cfg, before.value, QueuesOf(commandOutput, k - 1), modules[k - 1], prefix);
          Empties(SourceLines(before.value.output));
        }
      }
    }
  }

  lemma NoticeProjects(notice: string, prefix: string)
    ensures SourceLines([Notice(notice)]) == [] && ChecksOf([Notice(notice)], prefix) == []
  {
    assert [Notice(notice)][1..] == [];
  }

  lemma StopsOrGoesOn(cfg: Config, s: State, queues: seq<Queue>, lines: seq<Line>)
    ensures WeaveModule(cfg, s, queues, lines).Some? <==> s.annotations == []
  {
  }

  lemma NoQueues()
    ensures DistinctPrefixes([])
  {
  }

  lemma NothingLeft<T>(a: seq<T>, b: seq<T>, all: seq<T>)
    requires a + b == all
    ensures a == all <==> b == []
  {
    assert |a + b| == |a| + |b|;
  }

  /** The updated test keeps every source line, in order. */
  ghost predicate KeepsSource(cfg: Config, modules: seq<seq<Line>>, commandOutput: seq<seq<Queue>>) {
    var s := WeaveModules(cfg, modules, commandOutput, |modules|);
    s.Some? && SourceLines(s.value.output) == AllKept(modules, |modules|)
  }

  /**
   The script finishes and keeps every source line exactly when every annotation is followed,
   in its module, by a line it can attach to. (Otherwise it stops at the next module, or drops
   the annotations that end the last one.)
   */
  lemma KeepsSourceIfSettled(cfg: Config, modules: seq<seq<Line>>, commandOutput: seq<seq<Queue>>)
    requires AllDistinct(commandOutput)
    ensures KeepsSource(cfg, modules, commandOutput) <==> forall i :: 0 <= i < |modules| ==> Settled(modules[i])
  {
    hide SourceLines, Settled, WeaveModules, AllKept;
    ModulesConserve(cfg, modules, commandOutput, |modules|, "");
    var s := WeaveModules(cfg, modules, commandOutput, |modules|);
    if s.Some? {
      NothingLeft(SourceLines(s.value.output), s.value.annotations, AllKept(modules, |modules|));
      LastSettled(modules);
    }
  }

  lemma LastSettled(modules: seq<seq<Line>>)
    ensures var last := |modules| - 1;
            (forall i :: 0 <= i < |modules| ==> Settled(modules[i])) <==>
            (forall i :: 0 <= i < last ==> Settled(modules[i])) && (last >= 0 ==> Settled(modules[last]))
  {
    hide Settled;
  }

  /** An annotation that ends the last module is lost. */
  lemma LastAnnotationLost(cfg: Config, text: string)
    ensures var s := WeaveModules(cfg, [[Annotation(text)]], [], 1);
            && s.Some? && SourceLines(s.value.output) == []
            && AllKept([[Annotation(text)]], 1) == [Annotation(text)]
  {
    var modules, line := [[Annotation(text)]], Annotation(text);
    assert [line][1..] == [];
    assert WeaveModules(cfg, modules, [], 0) == Some(State([], [], [Notice(cfg.notice)]));
    assert Steps(cfg, State([], [], [Notice(cfg.notice)]), [line]) == State([], [line], [Notice(cfg.notice)]);
    NoticeProjects(cfg.notice, "");
    assert [Notice(cfg.notice)] + [] == [Notice(cfg.notice)];
    assert KeptLines([line]) == [line];
    assert AllKept(modules, 0) == [];
  }

  /** An annotation that ends an earlier module stops the script. */
  lemma StopsAfterAnnotation(cfg: Config, text: string, next: Line)
    ensures WeaveModules(cfg, [[Annotation(text)], [next]], [], 2).None?
  {
    var modules, line := [[Annotation(text)], [next]], Annotation(text);
    assert [line][1..] == [];
    assert WeaveModules(cfg, modules, [], 0) == Some(State([], [], [Notice(cfg.notice)]));
    assert Steps(cfg, State([], [], [Notice(cfg.notice)]), [line]) == State([], [line], [Notice(cfg.notice)]);
    assert WeaveModules(cfg, modules, [], 1).value.annotations == [line];
  }

  /** Whenever the script finishes, each prefix's wanted items appear exactly once, in their order. */
  lemma EmitsEveryItemOnce(cfg: Config, modules: seq<seq<Line>>, commandOutput: seq<seq<Queue>>, prefix: string)
    requires AllDistinct(commandOutput) && WeaveModules(cfg, modules, commandOutput, |modules|).Some?
    ensures ChecksOf(WeaveModules(cfg, modules, commandOutput, |modules|).value.output, prefix) ==
            AllTexts(cfg, commandOutput, |modules|, prefix)
  {
    ModulesConserve(cfg, modules, commandOutput, |modules|, prefix);
  }

  // ---- Where a block ends ------------------------------------------------------------------

  /** What a queue gives to a line ends with the first item of the line's name. */
  lemma {:induction false} UpToEndsWithMatch(items: seq<OutputItem>, key: Key)
    requires HasKey(items, key)
    ensures var due := UpTo(items, key);
            && due != [] && due <= items && due[|due| - 1].key == key
            && forall i :: 0 <= i < |due| - 1 ==> due[i].key != key
    decreases |items|
  {
    UpToNext(items, key);
    UpToPrefix(items, key);
    var due := UpTo(items, key);
    assert due == [due[0]] + due[1..];
    if items[0].key != key {
      UpToEndsWithMatch(items[1..], key);
    }
  }

  /** The checks that a named line emits for one of the prefixes. */
  lemma {:induction false} GroupOfPrefix(cfg: Config, queues: seq<Queue>, indent: string, key: Key, i: nat)
    requires DistinctPrefixes(queues) && i < |queues|
    ensures ChecksOf(DueBlocks(cfg, queues, indent, key), queues[i].prefix)
         == WantedTexts(cfg, Due(queues[i].items, key))
    decreases |queues|
  {
    hide Blocks, Due, WantedTexts, ChecksOf;
    var prefix := queues[i].prefix;
    var own, due := queues[0].prefix, Due(queues[0].items, key);
    var head, more := Blocks(cfg, indent, own, due, true), DueBlocks(cfg, queues[1..], indent, key);
    BlocksProject(cfg, indent, own, due, true, prefix);
    ChecksConcat(head, more, prefix);
    Empties(ChecksOf(more, prefix));
    Empties(ChecksOf(head, prefix));
    if i == 0 {
      NoSuchPrefix(cfg, queues[1..], indent, key, prefix);
    } else {
      GroupOfPrefix(cfg, queues[1..], indent, key, i - 1);
    }
  }

  /**
   A named line is preceded by its annotations, and those by a group without source lines. For a
   prefix with an unconsumed item of that name, the group's checks end with that item's block;
   for any other prefix, the group has none.
   */
  lemma BlockEndsAtNamedLine(cfg: Config, s: State, line: Line, i: nat)
    requires DistinctPrefixes(s.queues) && i < |s.queues|
    requires line.Named? && line.key in cfg.named && line.key.name != ""
    ensures var group := DueBlocks(cfg, s.queues, line.indent, line.key);
            && Step(cfg, s, line).output == s.output + group + Sources(s.annotations) + [Source(line)]
            && SourceLines(group) == []
            && var (items, checks) := (s.queues[i].items, ChecksOf(group, s.queues[i].prefix));
               if HasKey(items, line.key) then
                 var n := |UpTo(items, line.key)| - 1;
                 && 0 <= n < |items| && items[n].key == line.key && !HasKey(items[..n], line.key)
                 && checks == WantedTexts(cfg, items[..n]) + ItemTexts(items[n].lines)
                 && Step(cfg, s, line).queues[i].items == items[n + 1..]
               else checks == [] && Step(cfg, s, line).queues[i].items == items
  {
    hide ChecksOf, SourceLines, ItemTexts, UpTo, HasKey, Due, WantedTexts, DueBlocks, Drained;
    GroupOfPrefix(cfg, s.queues, line.indent, line.key, i);
    DueHasNoSources(cfg, s.queues, line.indent, line.key);
    DrainedAt(s.queues, line.key, i);
    DueTexts(cfg, s.queues[i].items, line.key);
  }

  // ---- Where a block stands in the updated test ------------------------------------------------

  /** What is written stays where it is. */
  lemma {:induction false} StepsAppend(cfg: Config, s: State, lines: seq<Line>)
    ensures s.output <= Steps(cfg, s, lines).output
    ensures |Steps(cfg, s, lines).queues| == |s.queues|
    ensures forall i :: 0 <= i < |s.queues| ==> Steps(cfg, s, lines).queues[i].prefix == s.queues[i].prefix
    decreases |lines|
  {
    hide DueBlocks, Drained, Sources;
    if lines != [] {
      StepsAppend(cfg, Step(cfg, s, lines[0]), lines[1..]);
    }
  }

  lemma {:induction false} StepsSplit(cfg: Config, s: State, lines: seq<Line>, j: nat)
    requires j <= |lines|
    ensures Steps(cfg, s, lines) == Steps(cfg, Steps(cfg, s, lines[..j]), lines[j..])
    decreases |lines|
  {
    hide Step;
    if j > 0 {
      assert lines[..j][0] == lines[0] && lines[..j][1..] == lines[1..][..j - 1];
      assert lines[1..][j - 1..] == lines[j..];
      StepsSplit(cfg, Step(cfg, s, lines[0]), lines[1..], j - 1);
    } else {
      assert lines[0..] == lines;
    }
  }

  lemma {:induction false} ModulesAppend(cfg: Config, modules: seq<seq<Line>>,
      commandOutput: seq<seq<Queue>>, j: nat, k: nat)
    requires j <= k <= |modules| && WeaveModules(cfg, modules, commandOutput, k).Some?
    ensures WeaveModules(cfg, modules, commandOutput, j).Some?
    ensures WeaveModules(cfg, modules, commandOutput, j).value.output
         <= WeaveModules(cfg, modules, commandOutput, k).value.output
    decreases k - j
  {
    hide Steps, Remaining;
    if j < k {
      var s := WeaveModules(cfg, modules, commandOutput, k - 1).value;
      StepsAppend(cfg, s.(queues := QueuesOf(commandOutput, k - 1)), modules[k - 1]);
      ModulesAppend(cfg, modules, commandOutput, j, k - 1);
    }
  }

  /** The state in which line `j` of module `k` is handled. */
  function Reached(cfg: Config, modules: seq<seq<Line>>, commandOutput: seq<seq<Queue>>, k: nat, j: nat): State
    requires k < |modules| && j <= |modules[k]| && WeaveModules(cfg, modules, commandOutput, k).Some?
  {
    var start := WeaveModules(cfg, modules, commandOutput, k).value.(queues := QueuesOf(commandOutput, k));
    Steps(cfg, start, modules[k][..j])
  }

  /** The checks of a group are those of the items up to the first of the name, or none. */
  ghost predicate GroupEnds(cfg: Config, items: seq<OutputItem>, key: Key, checks: seq<CheckText>) {
    if HasKey(items, key) then
      var n := |UpTo(items, key)| - 1;
      && 0 <= n < |items| && items[n].key == key && !HasKey(items[..n], key)
      && checks == WantedTexts(cfg, items[..n]) + ItemTexts(items[n].lines)
    else checks == []
  }

  /** Up to a line of a module, the output goes on as one step says. */
  lemma ReachedIsPrefix(cfg: Config, modules: seq<seq<Line>>, commandOutput: seq<seq<Queue>>, k: nat, j: nat)
    requires k < |modules| && j < |modules[k]| && WeaveModules(cfg, modules, commandOutput, |modules|).Some?
    ensures WeaveModules(cfg, modules, commandOutput, k).Some?
    ensures Step(cfg, Reached(cfg, modules, commandOutput, k, j), modules[k][j]).output
         <= WeaveModules(cfg, modules, commandOutput, |modules|).value.output
  {
    hide Step, Remaining;
    ModulesAppend(cfg, modules, commandOutput, k, |modules|);
    ModulesAppend(cfg, modules, commandOutput, k + 1, |modules|);
    var lines := modules[k];
    var start := WeaveModules(cfg, modules, commandOutput, k).value.(queues := QueuesOf(commandOutput, k));
    StepsSplit(cfg, start, lines, j);
    var s := Reached(cfg, modules, commandOutput, k, j);
    assert lines[j..][0] == lines[j];
    StepsAppend(cfg, Step(cfg, s, lines[j]), lines[j..][1..]);
  }

  /** What was written and queued when line `j` of module `k` is reached. */
  lemma ReachedConserves(cfg: Config, modules: seq<seq<Line>>,
      commandOutput: seq<seq<Queue>>, k: nat, j: nat, prefix: string)
    requires k < |modules| && j < |modules[k]| && AllDistinct(commandOutput)
    requires WeaveModules(cfg, modules, commandOutput, k).Some?
    requires WeaveModules(cfg, modules, commandOutput, k).value.annotations == []
    ensures var s := Reached(cfg, modules, commandOutput, k, j);
            && SourceLines(s.output) + s.annotations == AllKept(modules, k) + KeptLines(modules[k][..j])
            && ChecksOf(s.output, prefix) + PrefixTexts(cfg, s.queues, prefix)
                 == AllTexts(cfg, commandOutput, k, prefix) + PrefixTexts(cfg, QueuesOf(commandOutput, k), prefix)
  {
    hide SourceLines, ChecksOf, PrefixTexts, Steps, KeptLines, WeaveModules, AllKept, AllTexts, DistinctPrefixes;
    NoQueues();
    ModulesConserve(cfg, modules, commandOutput, k, prefix);
    var start := WeaveModules(cfg, modules, commandOutput, k).value.(queues := QueuesOf(commandOutput, k));
    Empties(SourceLines(start.output));
    StepsConserve(cfg, start, modules[k][..j], prefix);
  }

  lemma NextModuleSettled(cfg: Config, modules: seq<seq<Line>>, commandOutput: seq<seq<Queue>>, k: nat)
    requires k < |modules| && WeaveModules(cfg, modules, commandOutput, k + 1).Some?
    ensures WeaveModules(cfg, modules, commandOutput, k).Some?
    ensures WeaveModules(cfg, modules, commandOutput, k).value.annotations == []
  {
    hide Steps, Remaining;
  }

  /**
   In the finished test, a named line is preceded by its annotations and those by a group of checks;
   before the group stand exactly the earlier source lines. For each prefix, the group ends with
   the block of the line's item, if that item was not consumed before.
   */
  lemma BlockStandsBeforeNamedLine(cfg: Config, modules: seq<seq<Line>>,
      commandOutput: seq<seq<Queue>>, k: nat, j: nat, i: nat)
    requires AllDistinct(commandOutput) && WeaveModules(cfg, modules, commandOutput, |modules|).Some?
    requires k < |modules| && j < |modules[k]| && i < |QueuesOf(commandOutput, k)|
    requires var line := modules[k][j]; line.Named? && line.key in cfg.named && line.key.name != ""
    ensures WeaveModules(cfg, modules, commandOutput, k).Some?
    ensures var s, line := Reached(cfg, modules, commandOutput, k, j), modules[k][j];
            var group := DueBlocks(cfg, s.queues, line.indent, line.key);
            && s.output + group + Sources(s.annotations) + [Source(line)]
                 <= WeaveModules(cfg, modules, commandOutput, |modules|).value.output
            && SourceLines(group) == []
            && SourceLines(s.output) + s.annotations == AllKept(modules, k) + KeptLines(modules[k][..j])
            && i < |s.queues| && s.queues[i].prefix == QueuesOf(commandOutput, k)[i].prefix
            && GroupEnds(cfg, s.queues[i].items, line.key, ChecksOf(group, s.queues[i].prefix))
  {
    hide SourceLines, ChecksOf, Steps, KeptLines, WeaveModules, AllKept;
    hide ItemTexts, UpTo, HasKey, WantedTexts, DueBlocks;
    ModulesAppend(cfg, modules, commandOutput, k + 1, |modules|);
    NextModuleSettled(cfg, modules, commandOutput, k);
    ReachedIsPrefix(cfg, modules, commandOutput, k, j);
    ReachedConserves(cfg, modules, commandOutput, k, j, "");
    NoQueues();
    var start := WeaveModules(cfg, modules, commandOutput, k).value.(queues := QueuesOf(commandOutput, k));
    StepsAppend(cfg, start, modules[k][..j]);
    var s := Reached(cfg, modules, commandOutput, k, j);
    assert DistinctPrefixes(s.queues);
    BlockEndsAtNamedLine(cfg, s, modules[k][j], i);
  }

  lemma DueTexts(cfg: Config, items: seq<OutputItem>, key: Key)
    requires key in cfg.named && key.name != ""
    ensures !HasKey(items, key) ==> Due(items, key) == [] && WantedTexts(cfg, Due(items, key)) == []
    ensures HasKey(items, key) ==>
              var n := |UpTo(items, key)| - 1;
              && 0 <= n < |items| && items[n].key == key && !HasKey(items[..n], key)
              && |Due(items, key)| == n + 1
              && WantedTexts(cfg, Due(items, key)) == WantedTexts(cfg, items[..n]) + ItemTexts(items[n].lines)
  {
    hide ItemTexts, WantedTexts, UpTo;
    if HasKey(items, key) {
      UpToEndsWithMatch(items, key);
      var due := UpTo(items, key);
      var n := |due| - 1;
      assert due == items[..n] + [items[n]];
      WantedConcat(cfg, items[..n], [items[n]]);
      OneWanted(cfg, items[n]);
    } else {
      NoneWanted(cfg);
    }
  }

  lemma NoneWanted(cfg: Config)
    ensures WantedTexts(cfg, []) == []
  {
  }

  lemma OneWanted(cfg: Config, item: OutputItem)
    requires item.key in cfg.named
    ensures WantedTexts(cfg, [item]) == ItemTexts(item.lines)
  {
    hide ItemTexts;
    Empties(ItemTexts(item.lines));
    assert [item][1..] == [];
  }

  lemma {:induction false} DrainedAt(queues: seq<Queue>, key: Key, i: nat)
    requires i < |queues|
    ensures Drained(queues, key)[i].items == queues[i].items[|Due(queues[i].items, key)|..]
    decreases |queues|
  {
    hide Due;
    if i > 0 {
      DrainedAt(queues[1..], key, i - 1);
    }
  }

  // ---- The form of a block --------------------------------------------------------------------

  /**
   Lines of white space become EMPTY checks, the first line is matched anywhere and the others right after
   their predecessors; the text is the line, with a space in front unless it begins with one.
   */
  lemma CheckForms(indent: string, prefix: string, lines: seq<string>, i: nat)
    requires i < |lines|
    ensures |Block(indent, prefix, lines)| == |lines|
    ensures var check := Block(indent, prefix, lines)[i];
            && check.Check? && check.indent == indent && check.prefix == prefix
            && (check.form == Empty <==>
                  forall k :: 0 <= k < |lines[i]| ==>
                    lines[i][k] as int in {0x09, 0x0A, 0x0B, 0x0C, 0x0D, 0x1C, 0x1D, 0x1E, 0x1F, 0x20, 0x85, 0xA0,
                      0x1680, 0x2000, 0x2001, 0x2002, 0x2003, 0x2004, 0x2005, 0x2006, 0x2007, 0x2008, 0x2009,
                      0x200A, 0x2028, 0x2029, 0x202F, 0x205F, 0x3000})
            && (check.form == First ==> i == 0) && (check.form == Next ==> i > 0)
            && check.text == if check.form == Empty then "" else if lines[i][0] == ' ' then lines[i] else " " + lines[i]
  {
    forall c: char ensures IsSpace(c) <==>
      c as int in {0x09, 0x0A, 0x0B, 0x0C, 0x0D, 0x1C, 0x1D, 0x1E, 0x1F, 0x20, 0x85, 0xA0,
        0x1680, 0x2000, 0x2001, 0x2002, 0x2003, 0x2004, 0x2005, 0x2006, 0x2007, 0x2008, 0x2009,
        0x200A, 0x2028, 0x2029, 0x202F, 0x205F, 0x3000}
    {
    }
    hide IsSpace;
  }

  function Separators(out: seq<Out>): nat {
    if out == [] then 0 else (if out[0].Blank? then 1 else 0) + Separators(out[1..])
  }

  function WantedCount(cfg: Config, items: seq<OutputItem>): nat {
    if items == [] then 0 else (if Wanted(cfg, items[0]) then 1 else 0) + WantedCount(cfg, items[1..])
  }

  lemma {:induction false} SeparatorsConcat(a: seq<Out>, b: seq<Out>)
    ensures Separators(a + b) == Separators(a) + Separators(b)
    decreases |a|
  {
    if a == [] {
      assert a + b == b;
    } else {
      assert (a + b)[1..] == a[1..] + b;
      SeparatorsConcat(a[1..], b);
    }
  }

  lemma {:induction false} ChecksOnlySeparate(out: seq<Out>)
    requires forall i :: 0 <= i < |out| ==> out[i].Check?
    ensures Separators(out) == 0
    decreases |out|
  {
    if out != [] {
      ChecksOnlySeparate(out[1..]);
    }
  }

  /** There is one empty line for each block but the first of a group. */
  lemma {:induction false} SeparatorsBetween(cfg: Config, indent: string, prefix: string,
      items: seq<OutputItem>, first: bool)
    ensures Separators(Blocks(cfg, indent, prefix, items, first)) ==
            WantedCount(cfg, items) - if first && WantedCount(cfg, items) > 0 then 1 else 0
    decreases |items|
  {
    hide Separators, Block;
    NoSeparator();
    if items != [] {
      if Wanted(cfg, items[0]) {
        var block, more := Block(indent, prefix, items[0].lines), Blocks(cfg, indent, prefix, items[1..], false);
        var sep: seq<Out> := if first then [] else [Blank];
        assert Separators(block) == 0 by { BlockSeparates(indent, prefix, items[0].lines); }
        SeparatorsConcat(sep + block, more);
        SeparatorsConcat(sep, block);
        SeparatorsBetween(cfg, indent, prefix, items[1..], false);
      } else {
        SeparatorsBetween(cfg, indent, prefix, items[1..], first);
      }
    }
  }

  lemma NoSeparator()
    ensures Separators([]) == 0 && Separators([Blank]) == 1
  {
    assert [Blank][1..] == [];
  }

  lemma BlockSeparates(indent: string, prefix: string, lines: seq<string>)
    ensures Separators(Block(indent, prefix, lines)) == 0
  {
    ChecksOnlySeparate(Block(indent, prefix, lines));
  }

  function AllWanted(cfg: Config, queues: seq<Queue>): nat {
    if queues == [] then 0 else WantedCount(cfg, queues[0].items) + AllWanted(cfg, queues[1..])
  }

  lemma {:induction false} NoneCounted(cfg: Config, items: seq<OutputItem>)
    ensures WantedCount(cfg, items) == 0 <==> forall i :: 0 <= i < |items| ==> !Wanted(cfg, items[i])
    decreases |items|
  {
    hide Wanted;
    if items != [] {
      NoneCounted(cfg, items[1..]);
      assert forall i :: 0 < i < |items| ==> items[i] == items[1..][i - 1];
      assert forall i :: 0 <= i < |items[1..]| ==> items[1..][i] == items[i + 1];
    }
  }

  /** At the end of a module the blocks of all prefixes are one group. */
  lemma {:induction false} SeparatorsAtEnd(cfg: Config, queues: seq<Queue>, first: bool)
    ensures Separators(Remaining(cfg, queues, first)) ==
            AllWanted(cfg, queues) - if first && AllWanted(cfg, queues) > 0 then 1 else 0
    decreases |queues|
  {
    hide Separators, Blocks, WantedCount, Wanted;
    NoSeparator();
    if queues != [] {
      var items := queues[0].items;
      var none := forall i :: 0 <= i < |items| ==> !Wanted(cfg, items[i]);
      NoneCounted(cfg, items);
      SeparatorsConcat(Blocks(cfg, "", queues[0].prefix, items, first), Remaining(cfg, queues[1..], first && none));
      SeparatorsBetween(cfg, "", queues[0].prefix, items, first);
      SeparatorsAtEnd(cfg, queues[1..], first && none);
    }
  }
}
