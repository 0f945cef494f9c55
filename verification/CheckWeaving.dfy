/**
 The weaving loop of scripts/update_lit_checks.py: queues of output items, one for each
 check prefix, are merged into the source lines of a test, in front of the items they
 belong to. Lines are given already classified, in place of the script's regular expressions.
 */
module CheckWeaving {
  import opened Wrappers

  datatype Key = Key(kind: string, name: string)

  /** An existing check line, an annotation, the first line of a named item, or any other line. */
  datatype Line =
    | OldCheck(text: string)
    | Annotation(text: string)
    | Named(text: string, indent: string, key: Key)
    | Other(text: string)

  datatype OutputItem = OutputItem(key: Key, lines: seq<string>)

  datatype Queue = Queue(prefix: string, items: seq<OutputItem>)

  datatype Label = First | Next | Empty

  /** A line of the updated test: the notice on top, a source line, a generated check, or an empty separator. */
  datatype Out =
    | Notice(text: string)
    | Source(line: Line)
    | Check(indent: string, prefix: string, form: Label, text: string)
    | Blank

  /** The notice, the script's --all-items flag, and the items that are named in the test. */
  datatype Config = Config(notice: string, allItems: bool, named: set<Key>)

  predicate Wanted(cfg: Config, item: OutputItem) {
    cfg.allItems || item.key in cfg.named
  }

  // ---- Generated checks -----------------------------------------------------------------

  /** What Python's `str.strip` removes. */
  predicate IsSpace(c: char) {
    var u := c as int;
    || 0x09 <= u <= 0x0D || 0x1C <= u <= 0x20 || u == 0x85 || u == 0xA0 || u == 0x1680
    || 0x2000 <= u <= 0x200A || u == 0x2028 || u == 0x2029 || u == 0x202F || u == 0x205F || u == 0x3000
  }

  predicate IsBlank(s: string) {
    forall i :: 0 <= i < |s| ==> IsSpace(s[i])
  }

  function Pad(line: string): string {
    if line == "" || line[0] == ' ' then line else [' '] + line
  }

  /** The check for line `i` of an item. */
  function CheckFor(indent: string, prefix: string, lines: seq<string>, i: nat): Out
    requires i < |lines|
  {
    if IsBlank(lines[i]) then Check(indent, prefix, Empty, "")
    else Check(indent, prefix, if i == 0 then First else Next, Pad(lines[i]))
  }

  function Block(indent: string, prefix: string, lines: seq<string>): seq<Out> {
    seq(|lines|, i requires 0 <= i < |lines| => CheckFor(indent, prefix, lines, i))
  }

  /** The blocks of the wanted items, with an empty line between two of them. */
  function Blocks(cfg: Config, indent: string, prefix: string, items: seq<OutputItem>, first: bool): seq<Out> {
    if items == [] then []
    else if !Wanted(cfg, items[0]) then Blocks(cfg, indent, prefix, items[1..], first)
    else (if first then [] else [Blank]) + Block(indent, prefix, items[0].lines)
           + Blocks(cfg, indent, prefix, items[1..], false)
  }

  // ---- Draining the queues ----------------------------------------------------------------

  predicate HasKey(items: seq<OutputItem>, key: Key) {
    exists i :: 0 <= i < |items| && items[i].key == key
  }

  /** The items up to and including the first one with the key. */
  function UpTo(items: seq<OutputItem>, key: Key): seq<OutputItem> {
    if items == [] then []
    else if items[0].key == key then [items[0]]
    else [items[0]] + UpTo(items[1..], key)
  }

  /** What a named line takes from a queue. */
  function Due(items: seq<OutputItem>, key: Key): (due: seq<OutputItem>)
    ensures due <= items
  {
    if key.name != "" && HasKey(items, key) then UpToPrefix(items, key); UpTo(items, key) else []
  }

  lemma UpToPrefix(items: seq<OutputItem>, key: Key)
    ensures UpTo(items, key) <= items
  {
  }

  function DueBlocks(cfg: Config, queues: seq<Queue>, indent: string, key: Key): seq<Out> {
    if queues == [] then []
    else
      Blocks(cfg, indent, queues[0].prefix, Due(queues[0].items, key), true)
        + DueBlocks(cfg, queues[1..], indent, key)
  }

  function Drained(queues: seq<Queue>, key: Key): (r: seq<Queue>)
    ensures |r| == |queues|
    ensures forall i :: 0 <= i < |r| ==> r[i].prefix == queues[i].prefix
  {
    if queues == [] then []
    else
      [queues[0].(items := queues[0].items[|Due(queues[0].items, key)|..])] + Drained(queues[1..], key)
  }

  /** The blocks left at the end of a module; `first` is shared by all prefixes. */
  function Remaining(cfg: Config, queues: seq<Queue>, first: bool): seq<Out> {
    if queues == [] then []
    else
      Blocks(cfg, "", queues[0].prefix, queues[0].items, first)
        + Remaining(cfg, queues[1..],
                    first && forall i :: 0 <= i < |queues[0].items| ==> !Wanted(cfg, queues[0].items[i]))
  }

  // ---- One line and one module ------------------------------------------------------------

  datatype State = State(queues: seq<Queue>, annotations: seq<Line>, output: seq<Out>)

  function Sources(lines: seq<Line>): seq<Out> {
    seq(|lines|, i requires 0 <= i < |lines| => Source(lines[i]))
  }

  function Step(cfg: Config, s: State, line: Line): State {
    match line
    case OldCheck(_) => s
    case Annotation(_) => s.(annotations := s.annotations + [line])
    case Other(_) => s.(output := s.output + Sources(s.annotations) + [Source(line)], annotations := [])
    case Named(_, indent, key) =>
      State(Drained(s.queues, key), [],
            s.output + DueBlocks(cfg, s.queues, indent, key) + Sources(s.annotations) + [Source(line)])
  }

  function Steps(cfg: Config, s: State, lines: seq<Line>): State
    decreases |lines|
  {
    if lines == [] then s else Steps(cfg, Step(cfg, s, lines[0]), lines[1..])
  }

  /** A module starts with its own queues and with no annotation pending, or the script stops. */
  function WeaveModule(cfg: Config, s: State, queues: seq<Queue>, lines: seq<Line>): Option<State> {
    if s.annotations != [] then None
    else
      var t := Steps(cfg, s.(queues := queues), lines);
      Some(t.(output := t.output + Remaining(cfg, t.queues, true)))
  }

  function QueuesOf(commandOutput: seq<seq<Queue>>, i: nat): seq<Queue> {
    if i < |commandOutput| then commandOutput[i] else []
  }

  /** The state after the first `k` modules. */
  function WeaveModules(cfg: Config, modules: seq<seq<Line>>, commandOutput: seq<seq<Queue>>, k: nat): Option<State>
    requires k <= |modules|
  {
    if k == 0 then Some(State([], [], [Notice(cfg.notice)]))
    else match WeaveModules(cfg, modules, commandOutput, k - 1)
      case None => None
      case Some(s) => WeaveModule(cfg, s, QueuesOf(commandOutput, k - 1), modules[k - 1])
  }

  // ---- The script's loops -------------------------------------------------------------------

  method EmitChecks(indent: string, prefix: string, lines: seq<string>, before: seq<Out>) returns (output: seq<Out>)
    ensures output == before + Block(indent, prefix, lines)
  {
    output := before;
    for i := 0 to |lines|
      invariant output == before + Block(indent, prefix, lines)[..i]
    {
      if IsBlank(lines[i]) {
        output := output + [Check(indent, prefix, Empty, "")];
      } else if i == 0 {
        output := output + [Check(indent, prefix, First, Pad(lines[i]))];
      } else {
        output := output + [Check(indent, prefix, Next, Pad(lines[i]))];
      }
    }
  }

  method HasItem(items: seq<OutputItem>, key: Key) returns (hasItem: bool)
    ensures hasItem <==> key.name != "" && HasKey(items, key)
  {
    hasItem := false;
    for i := 0 to |items|
      invariant !hasItem
      invariant forall j :: 0 <= j < i ==> !(key.name != "" && items[j].key == key)
    {
      if key.name != "" && items[i].key == key {
        hasItem := true;
        break;
      }
    }
  }

  /** Pop and emit items up to the one with the key, which must be there. */
  method PopThrough(cfg: Config, queue: Queue, indent: string, key: Key, before: seq<Out>)
    returns (items: seq<OutputItem>, output: seq<Out>)
    requires key.name != "" && HasKey(queue.items, key)
    ensures |UpTo(queue.items, key)| <= |queue.items|
    ensures items == queue.items[|UpTo(queue.items, key)|..]
    ensures output == before + Blocks(cfg, indent, queue.prefix, UpTo(queue.items, key), true)
  {
    hide Blocks, Block, Wanted;
    UpToPrefix(queue.items, key);
    items, output := queue.items, before;
    var first := true;
    while true
      invariant HasKey(items, key)
      invariant |items| <= |queue.items| && items == queue.items[|queue.items| - |items|..]
      invariant |queue.items| - |items| + |UpTo(items, key)| == |UpTo(queue.items, key)|
      invariant output + Blocks(cfg, indent, queue.prefix, UpTo(items, key), first) ==
                before + Blocks(cfg, indent, queue.prefix, UpTo(queue.items, key), true)
      decreases |items|
    {
      var item := items[0];
      UpToNext(items, key);
      BlocksNext(cfg, indent, queue.prefix, UpTo(items, key), first, output);
      items := items[1..];
      if Wanted(cfg, item) {
        if !first {
          output := output + [Blank];
        }
        first := false;
        output := EmitChecks(indent, queue.prefix, item.lines, output);
      }
      if key.name != "" && item.key == key {
        break;
      }
    }
    BlocksNone(cfg, indent, queue.prefix, first);
  }

  lemma BlocksNone(cfg: Config, indent: string, prefix: string, first: bool)
    ensures Blocks(cfg, indent, prefix, [], first) == []
  {
  }

  lemma UpToNext(items: seq<OutputItem>, key: Key)
    requires HasKey(items, key)
    ensures |UpTo(items, key)| > 0 && UpTo(items, key)[0] == items[0]
    ensures items[0].key == key ==> UpTo(items, key)[1..] == []
    ensures items[0].key != key ==> HasKey(items[1..], key) && UpTo(items, key)[1..] == UpTo(items[1..], key)
  {
    if items[0].key != key {
      var i :| 0 <= i < |items| && items[i].key == key;
      assert items[1..][i - 1].key == key;
    }
  }

  /** Emitting the next item moves its block from what is to come to what is written. */
  lemma BlocksNext(cfg: Config, indent: string, prefix: string, items: seq<OutputItem>, first: bool, output: seq<Out>)
    requires items != []
    ensures output + Blocks(cfg, indent, prefix, items, first) ==
            if !Wanted(cfg, items[0]) then output + Blocks(cfg, indent, prefix, items[1..], first)
            else (if first then output else output + [Blank]) + Block(indent, prefix, items[0].lines)
                   + Blocks(cfg, indent, prefix, items[1..], false)
  {
    if Wanted(cfg, items[0]) {
      hide Block, Wanted;
      var block, more := Block(indent, prefix, items[0].lines), Blocks(cfg, indent, prefix, items[1..], false);
      Regroup(output, if first then [] else [Blank], block, more);
    }
  }

  lemma Regroup(a: seq<Out>, b: seq<Out>, c: seq<Out>, d: seq<Out>)
    ensures a + (b + c + d) == ((a + b) + c) + d
    ensures a + [] == a
  {
  }

  /** Emit what is due for a named line, prefix by prefix. */
  method DrainQueues(cfg: Config, queues: seq<Queue>, indent: string, key: Key, before: seq<Out>)
    returns (drained: seq<Queue>, output: seq<Out>)
    ensures drained == Drained(queues, key)
    ensures output == before + DueBlocks(cfg, queues, indent, key)
  {
    hide Blocks, UpTo, HasKey, Drained, DueBlocks;
    drained, output := [], before;
    assert queues[0..] == queues;
    for i := 0 to |queues|
      invariant drained + Drained(queues[i..], key) == Drained(queues, key)
      invariant output + DueBlocks(cfg, queues[i..], indent, key) == before + DueBlocks(cfg, queues, indent, key)
    {
      var queue := queues[i];
      assert queues[i..][0] == queue && queues[i..][1..] == queues[i + 1..];
      DueNext(cfg, queues[i..], indent, key, output);
      DrainedNext(queues[i..], key, drained);
      var items := queue.items;
      var hasItem := HasItem(items, key);
      if hasItem {
        items, output := PopThrough(cfg, queue, indent, key, output);
      } else {
        BlocksNone(cfg, indent, queue.prefix, true);
      }
      drained := drained + [queue.(items := items)];
    }
    DueNone(cfg, indent, key);
  }

  lemma DueNone(cfg: Config, indent: string, key: Key)
    ensures Drained([], key) == [] && DueBlocks(cfg, [], indent, key) == []
  {
  }

  lemma DueNext(cfg: Config, queues: seq<Queue>, indent: string, key: Key, output: seq<Out>)
    requires queues != []
    ensures output + DueBlocks(cfg, queues, indent, key) ==
            (output + Blocks(cfg, indent, queues[0].prefix, Due(queues[0].items, key), true))
              + DueBlocks(cfg, queues[1..], indent, key)
  {
    hide Blocks, Due;
    var due := Due(queues[0].items, key);
    Regroup(output, [], Blocks(cfg, indent, queues[0].prefix, due, true), DueBlocks(cfg, queues[1..], indent, key));
  }

  lemma DrainedNext(queues: seq<Queue>, key: Key, drained: seq<Queue>)
    requires queues != []
    ensures drained + Drained(queues, key) ==
            (drained + [queues[0].(items := queues[0].items[|Due(queues[0].items, key)|..])])
              + Drained(queues[1..], key)
  {
    hide Due;
    var next := [queues[0].(items := queues[0].items[|Due(queues[0].items, key)|..])];
    var rest := Drained(queues[1..], key);
    assert Drained(queues, key) == next + rest;
    hide *;
    assert drained + (next + rest) == (drained + next) + rest;
  }

  /** Emit what is left of one queue. */
  method EmitRest(cfg: Config, queue: Queue, before: seq<Out>, wasFirst: bool) returns (output: seq<Out>, first: bool)
    ensures output == before + Blocks(cfg, "", queue.prefix, queue.items, wasFirst)
    ensures first <==> wasFirst && forall k :: 0 <= k < |queue.items| ==> !Wanted(cfg, queue.items[k])
  {
    hide Blocks, Wanted;
    var items := queue.items;
    output, first := before, wasFirst;
    assert items[0..] == items;
    for j := 0 to |items|
      invariant output + Blocks(cfg, "", queue.prefix, items[j..], first) ==
                before + Blocks(cfg, "", queue.prefix, items, wasFirst)
      invariant first <==> wasFirst && forall k :: 0 <= k < j ==> !Wanted(cfg, items[k])
    {
      assert items[j..][0] == items[j] && items[j..][1..] == items[j + 1..];
      BlocksNext(cfg, "", queue.prefix, items[j..], first, output);
      if Wanted(cfg, items[j]) {
        if !first {
          output := output + [Blank];
        }
        first := false;
        output := EmitChecks("", queue.prefix, items[j].lines, output);
      }
    }
    BlocksNone(cfg, "", queue.prefix, first);
  }

  method EmitRemaining(cfg: Config, queues: seq<Queue>, before: seq<Out>) returns (output: seq<Out>)
    ensures output == before + Remaining(cfg, queues, true)
  {
    hide Blocks, Wanted;
    output := before;
    var first := true;
    assert queues[0..] == queues;
    for i := 0 to |queues|
      invariant output + Remaining(cfg, queues[i..], first) == before + Remaining(cfg, queues, true)
    {
      assert queues[i..][0] == queues[i] && queues[i..][1..] == queues[i + 1..];
      ghost var start, wasFirst := output, first;
      output, first := EmitRest(cfg, queues[i], output, first);
      Regroup(start, [],
              Blocks(cfg, "", queues[i].prefix, queues[i].items, wasFirst), Remaining(cfg, queues[i + 1..], first));
    }
  }

  method WeaveLines(cfg: Config, queues: seq<Queue>, lines: seq<Line>, before: seq<Out>)
    returns (rest: seq<Queue>, annotations: seq<Line>, output: seq<Out>)
    ensures State(rest, annotations, output) == Steps(cfg, State(queues, [], before), lines)
  {
    hide Drained, DueBlocks;
    rest, annotations, output := queues, [], before;
    assert lines[0..] == lines;
    for i := 0 to |lines|
      invariant Steps(cfg, State(rest, annotations, output), lines[i..]) == Steps(cfg, State(queues, [], before), lines)
    {
      var line := lines[i];
      assert lines[i..][0] == line && lines[i..][1..] == lines[i + 1..];
      match line {
        case OldCheck(_) =>
        case Annotation(_) =>
          annotations := annotations + [line];
        case Other(_) =>
          output := output + Sources(annotations);
          annotations := [];
          output := output + [Source(line)];
        case Named(_, indent, key) =>
          rest, output := DrainQueues(cfg, rest, indent, key, output);
          output := output + Sources(annotations);
          annotations := [];
          output := output + [Source(line)];
      }
    }
  }

  /** The updated test; `None` stands for the failed assertion that no annotation is pending. */
  method Weave(cfg: Config, modules: seq<seq<Line>>, commandOutput: seq<seq<Queue>>) returns (r: Option<seq<Out>>)
    ensures var s := WeaveModules(cfg, modules, commandOutput, |modules|);
            r == if s.None? then None else Some(s.value.output)
  {
    var output := [Notice(cfg.notice)];
    var annotations: seq<Line> := [];
    ghost var queues: seq<Queue> := [];
    for i := 0 to |modules|
      invariant WeaveModules(cfg, modules, commandOutput, i) == Some(State(queues, annotations, output))
    {
      hide Steps, Remaining;
      if annotations != [] {
        StopsFor(cfg, modules, commandOutput, i + 1, |modules|);
        return None;
      }
      var rest;
      rest, annotations, output := WeaveLines(cfg, QueuesOf(commandOutput, i), modules[i], output);
      output := EmitRemaining(cfg, rest, output);
      queues := rest;
    }
    return Some(output);
  }

  lemma {:induction false} StopsFor(cfg: Config, modules: seq<seq<Line>>,
      commandOutput: seq<seq<Queue>>, j: nat, k: nat)
    requires j <= k <= |modules| && WeaveModules(cfg, modules, commandOutput, j).None?
    ensures WeaveModules(cfg, modules, commandOutput, k).None?
    decreases k - j
  {
    if j < k {
      StopsFor(cfg, modules, commandOutput, j, k - 1);
    }
  }
}
