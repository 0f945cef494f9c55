/**
 What the updated test shows of the output items: all of them with --all-items, and otherwise those
 that the test names; where, for which prefix and how far indented.
 */
module CheckWeavingLaws {
  import opened CheckWeaving
  import opened CheckWeavingProofs

  /** The items whose key is named. */
  function OnlyNamed(items: seq<OutputItem>, named: set<Key>): seq<OutputItem> {
    if items == [] then []
    else (if items[0].key in named then [items[0]] else []) + OnlyNamed(items[1..], named)
  }

  /** The texts of all the items. */
  function TextsOf(items: seq<OutputItem>): seq<CheckText> {
    if items == [] then [] else ItemTexts(items[0].lines) + TextsOf(items[1..])
  }

  lemma {:induction false} WantedOnly(cfg: Config, items: seq<OutputItem>)
    ensures cfg.allItems ==> WantedTexts(cfg, items) == TextsOf(items)
    ensures !cfg.allItems ==> WantedTexts(cfg, items) == TextsOf(OnlyNamed(items, cfg.named))
    decreases |items|
  {
    hide ItemTexts;
    if items != [] {
      WantedOnly(cfg, items[1..]);
      var rest := OnlyNamed(items[1..], cfg.named);
      assert ([items[0]] + rest)[1..] == rest;
      Empties(TextsOf(rest));
      Empties(rest);
    }
  }

  // ---- The whole test -------------------------------------------------------------------------

  /** The texts of all items for a prefix in the output of one module. */
  function ModuleTexts(queues: seq<Queue>, prefix: string): seq<CheckText> {
    if queues == [] then []
    else (if queues[0].prefix == prefix then TextsOf(queues[0].items) else []) + ModuleTexts(queues[1..], prefix)
  }

  /** The texts of all items for a prefix in the output of the first `k` modules, as far as there is any. */
  function TestTexts(commandOutput: seq<seq<Queue>>, k: nat, prefix: string): seq<CheckText> {
    if k == 0 then []
    else
      TestTexts(commandOutput, k - 1, prefix)
        + if k - 1 < |commandOutput| then ModuleTexts(commandOutput[k - 1], prefix) else []
  }

  function NamedQueues(queues: seq<Queue>, named: set<Key>): seq<Queue> {
    seq(|queues|, i requires 0 <= i < |queues| => Queue(queues[i].prefix, OnlyNamed(queues[i].items, named)))
  }

  function NamedOutput(commandOutput: seq<seq<Queue>>, named: set<Key>): seq<seq<Queue>> {
    seq(|commandOutput|, i requires 0 <= i < |commandOutput| => NamedQueues(commandOutput[i], named))
  }

  lemma {:induction false} PrefixTextsOnly(cfg: Config, queues: seq<Queue>, prefix: string)
    ensures cfg.allItems ==> PrefixTexts(cfg, queues, prefix) == ModuleTexts(queues, prefix)
    ensures !cfg.allItems ==> PrefixTexts(cfg, queues, prefix) == ModuleTexts(NamedQueues(queues, cfg.named), prefix)
    decreases |queues|
  {
    hide WantedTexts, TextsOf, OnlyNamed;
    if queues != [] {
      PrefixTextsOnly(cfg, queues[1..], prefix);
      WantedOnly(cfg, queues[0].items);
      assert NamedQueues(queues, cfg.named)[1..] == NamedQueues(queues[1..], cfg.named);
    }
  }

  lemma {:induction false} AllTextsOnly(cfg: Config, commandOutput: seq<seq<Queue>>, k: nat, prefix: string)
    ensures cfg.allItems ==> AllTexts(cfg, commandOutput, k, prefix) == TestTexts(commandOutput, k, prefix)
    ensures !cfg.allItems ==>
              AllTexts(cfg, commandOutput, k, prefix) == TestTexts(NamedOutput(commandOutput, cfg.named), k, prefix)
    decreases k
  {
    hide PrefixTexts, ModuleTexts, NamedQueues;
    if k > 0 {
      AllTextsOnly(cfg, commandOutput, k - 1, prefix);
      if k - 1 < |commandOutput| {
        PrefixTextsOnly(cfg, commandOutput[k - 1], prefix);
      } else {
        NoTexts(cfg, prefix);
      }
    }
  }

  lemma NoTexts(cfg: Config, prefix: string)
    ensures PrefixTexts(cfg, [], prefix) == []
  {
  }

  /**
   With --all-items, the checks of a prefix in the updated test are those of all its output items, each once
   and in order; without it, those of exactly the items whose key the test names.
   */
  lemma ShowsTheItems(cfg: Config, modules: seq<seq<Line>>, commandOutput: seq<seq<Queue>>, prefix: string)
    requires AllDistinct(commandOutput) && WeaveModules(cfg, modules, commandOutput, |modules|).Some?
    ensures var checks := ChecksOf(WeaveModules(cfg, modules, commandOutput, |modules|).value.output, prefix);
            && (cfg.allItems ==> checks == TestTexts(commandOutput, |modules|, prefix))
            && (!cfg.allItems ==> checks == TestTexts(NamedOutput(commandOutput, cfg.named), |modules|, prefix))
  {
    hide WeaveModules, ChecksOf, AllTexts, TestTexts;
    EmitsEveryItemOnce(cfg, modules, commandOutput, prefix);
    AllTextsOnly(cfg, commandOutput, |modules|, prefix);
  }

  // ---- One group of blocks ----------------------------------------------------------------------

  function IfCheck(o: Out): seq<Out> {
    if o.Check? then [o] else []
  }

  /** Every check of a piece of output, in order, whatever its prefix. */
  function EveryCheck(out: seq<Out>): seq<Out> {
    if out == [] then [] else IfCheck(out[0]) + EveryCheck(out[1..])
  }

  /** The blocks of all the items. */
  function ItemBlocks(indent: string, prefix: string, items: seq<OutputItem>): seq<Out> {
    if items == [] then [] else Block(indent, prefix, items[0].lines) + ItemBlocks(indent, prefix, items[1..])
  }

  lemma {:induction false} EveryConcat(a: seq<Out>, b: seq<Out>)
    ensures EveryCheck(a + b) == EveryCheck(a) + EveryCheck(b)
    decreases |a|
  {
    if a == [] {
      assert a + b == b;
    } else {
      hide IfCheck;
      assert (a + b)[0] == a[0] && (a + b)[1..] == a[1..] + b;
      EveryConcat(a[1..], b);
      Assoc(IfCheck(a[0]), EveryCheck(a[1..]), EveryCheck(b));
    }
  }

  lemma {:induction false} EveryIsAll(out: seq<Out>)
    requires forall i :: 0 <= i < |out| ==> out[i].Check?
    ensures EveryCheck(out) == out
    decreases |out|
  {
    if out != [] {
      EveryIsAll(out[1..]);
    }
  }

  lemma OneBlock(indent: string, prefix: string, lines: seq<string>, first: bool)
    ensures EveryCheck((if first then [] else [Blank]) + Block(indent, prefix, lines)) == Block(indent, prefix, lines)
  {
    EveryIsAll(Block(indent, prefix, lines));
    EveryConcat([Blank], Block(indent, prefix, lines));
    assert [Blank][1..] == [];
    Empties(Block(indent, prefix, lines));
  }

  lemma {:induction false} BlocksShow(cfg: Config, indent: string, prefix: string, items: seq<OutputItem>, first: bool)
    ensures cfg.allItems ==> EveryCheck(Blocks(cfg, indent, prefix, items, first)) == ItemBlocks(indent, prefix, items)
    ensures !cfg.allItems ==>
              EveryCheck(Blocks(cfg, indent, prefix, items, first))
                == ItemBlocks(indent, prefix, OnlyNamed(items, cfg.named))
    decreases |items|
  {
    hide EveryCheck, Block;
    NothingShown();
    if items != [] {
      var still := first && !Wanted(cfg, items[0]);
      var head := (if first then [] else [Blank]) + Block(indent, prefix, items[0].lines);
      BlocksShow(cfg, indent, prefix, items[1..], still);
      OneBlock(indent, prefix, items[0].lines, first);
      EveryConcat(head, Blocks(cfg, indent, prefix, items[1..], false));
      var rest := OnlyNamed(items[1..], cfg.named);
      assert ([items[0]] + rest)[1..] == rest;
      Empties(rest);
    }
  }

  lemma NothingShown()
    ensures EveryCheck([]) == []
  {
  }

  /** The blocks of all items of the prefixes in turn. */
  function QueueBlocks(indent: string, queues: seq<Queue>): seq<Out> {
    if queues == [] then []
    else ItemBlocks(indent, queues[0].prefix, queues[0].items) + QueueBlocks(indent, queues[1..])
  }

  /**
   What is left at the end of a module stands prefix after prefix in the order of the prefixes, without
   indentation: all the items, or those that are named.
   */
  lemma {:induction false} RemainingShows(cfg: Config, queues: seq<Queue>, first: bool)
    ensures cfg.allItems ==> EveryCheck(Remaining(cfg, queues, first)) == QueueBlocks("", queues)
    ensures !cfg.allItems ==>
              EveryCheck(Remaining(cfg, queues, first)) == QueueBlocks("", NamedQueues(queues, cfg.named))
    decreases |queues|
  {
    hide EveryCheck, Blocks, ItemBlocks, OnlyNamed;
    NothingShown();
    if queues != [] {
      var items := queues[0].items;
      var still := first && forall i :: 0 <= i < |items| ==> !Wanted(cfg, items[i]);
      RemainingShows(cfg, queues[1..], still);
      BlocksShow(cfg, "", queues[0].prefix, items, first);
      EveryConcat(Blocks(cfg, "", queues[0].prefix, items, first), Remaining(cfg, queues[1..], still));
      assert NamedQueues(queues, cfg.named)[1..] == NamedQueues(queues[1..], cfg.named);
    }
  }

  /** The queues cut off behind the first item of a key; nothing where there is none. */
  function UpToKey(queues: seq<Queue>, key: Key): seq<Queue> {
    seq(|queues|, i requires 0 <= i < |queues| => Queue(queues[i].prefix, Due(queues[i].items, key)))
  }

  /** In front of a named line, they stand in the order of the prefixes and indented like the line. */
  lemma {:induction false} DueShows(cfg: Config, queues: seq<Queue>, indent: string, key: Key)
    ensures var due := UpToKey(queues, key);
            && (cfg.allItems ==> EveryCheck(DueBlocks(cfg, queues, indent, key)) == QueueBlocks(indent, due))
            && (!cfg.allItems ==>
                  EveryCheck(DueBlocks(cfg, queues, indent, key)) == QueueBlocks(indent, NamedQueues(due, cfg.named)))
    decreases |queues|
  {
    hide EveryCheck, Blocks, ItemBlocks, OnlyNamed, Due;
    NothingShown();
    if queues != [] {
      var due := UpToKey(queues, key);
      DueShows(cfg, queues[1..], indent, key);
      var items := Due(queues[0].items, key);
      BlocksShow(cfg, indent, queues[0].prefix, items, true);
      EveryConcat(Blocks(cfg, indent, queues[0].prefix, items, true), DueBlocks(cfg, queues[1..], indent, key));
      assert due[1..] == UpToKey(queues[1..], key);
      assert NamedQueues(due, cfg.named)[1..] == NamedQueues(due[1..], cfg.named);
    }
  }

  /** A line of an item without a name takes nothing from the queues. */
  lemma {:induction false} UnnamedTakesNothing(cfg: Config, queues: seq<Queue>, indent: string, key: Key)
    requires key.name == ""
    ensures DueBlocks(cfg, queues, indent, key) == [] && Drained(queues, key) == queues
    decreases |queues|
  {
    if queues != [] {
      UnnamedTakesNothing(cfg, queues[1..], indent, key);
      assert queues == [queues[0]] + queues[1..];
    }
  }
}
