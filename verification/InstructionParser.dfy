/**
 `instruction_parser` of scripts/gen-s-parser.py: build the trie from the instruction
 table, then walk it and emit the switches.
 */
module InstructionParser {
  import opened Wrappers
  import opened MachineInts
  import opened Trie
  import opened SortedStrings
  import opened InstructionTable
  import opened TrieCompiler
  import opened TrieCompilerProofs
  import opened GeneratorProofs
  import opened InstructionTrie

  // ---- What the generator computes ----------------------------------------------------------

  /** The trie after the rows of a table were inserted in their order. */
  ghost function Build(table: Table): Trie {
    if table == [] then Trie(None, map[])
    else
      var (inst, expr) := table[|table| - 1];
      Insert(Build(table[..|table| - 1]), inst, Entry(inst, expr))
  }

  lemma BuildStep(table: Table, inst: string, expr: string)
    ensures Build(table + [(inst, expr)]) == Insert(Build(table), inst, Entry(inst, expr))
  {
    assert (table + [(inst, expr)])[..|table|] == table;
  }

  /** The trie satisfies the invariant and holds the table. */
  lemma {:induction false} BuildHolds(table: Table)
    requires NoRepeats(table)
    ensures Compressed(Build(table)) && Holds(Build(table), table)
    decreases |table|
  {
    hide Compressed, Holds, Insert, Lookup, MaxLength, Selected;
    if table == [] {
      BuildNothing();
      HoldsEmpty();
    } else {
      var last := |table| - 1;
      BuildHolds(table[..last]);
      assert table == table[..last] + [(table[last].0, table[last].1)];
      HoldsStep(Build(table[..last]), table[..last], table[last].0, table[last].1);
    }
  }

  /** The emitted switches. */
  ghost function Program(instructions: Table): Option<Code> {
    Emit(Build(Selected(instructions)), 0)
  }

  /** Reordering the instruction table does not change the output, the buffer's length included. */
  lemma OutputOrderIrrelevant(a: Table, b: Table)
    requires NoRepeats(Selected(a)) && NoRepeats(Selected(b))
    requires forall row :: row in a <==> row in b
    ensures Program(a) == Program(b) && MaxLength(Selected(a)) == MaxLength(Selected(b))
  {
    hide Compressed, Holds, Build, MaxLength, Selected, NoRepeats;
    forall row ensures row in Selected(a) <==> row in Selected(b) {
      SelectedRows(a, row);
      SelectedRows(b, row);
    }
    BuildHolds(Selected(a));
    BuildHolds(Selected(b));
    BuildOrderIrrelevant(Build(Selected(a)), Build(Selected(b)), Selected(a), Selected(b));
    MaxLengthAnyOrder(Selected(a), Selected(b));
  }

  // ---- What the output does with each row -------------------------------------------------------

  /** The rows kept are those of all names but seven. */
  lemma KeptRows(instructions: Table, row: (string, string))
    ensures row in Selected(instructions) <==>
            row in instructions && row.0 !in {"block", "loop", "if", "try", "then", "else", "try_table"}
  {
    SelectedRows(instructions, row);
  }

  /**
   If the rows kept are compilable, the printed parser runs, for the bytes of each of their names, the action
   of its row; for all other bytes, those of the seven names left out included, it reaches the parse error.
   */
  lemma EveryRow(instructions: Table, op: seq<Byte>)
    requires NoRepeats(Selected(instructions)) && Compilable(Selected(instructions))
    ensures Program(instructions).Some?
    ensures var left := {"block", "loop", "if", "try", "then", "else", "try_table"};
            var outcome := RunProgram(Program(instructions).value, MaxLength(Selected(instructions)), op);
            && (forall row | row in instructions && row.0 !in left && Utf8.Encode(row.0) == op :: outcome == Run(row.1))
            && (outcome == ParseError ||
                exists row | row in instructions && row.0 !in left :: Utf8.Encode(row.0) == op)
            && (forall name | name in left && Utf8.Encode(name) == op :: outcome == ParseError)
  {
    hide Compressed, Holds, Build, MaxLength, Selected, NoRepeats, Compilable, Emit, WellFormed, RunProgram;
    hide Search, Find, Utf8.Encode;
    var table := Selected(instructions);
    BuildHolds(table);
    GeneratorTheorem(Build(table), table);
    var outcome := RunProgram(Program(instructions).value, MaxLength(table), op);
    assert outcome == SearchOutcome(table, op);
    var left := {"block", "loop", "if", "try", "then", "else", "try_table"};
    forall row | row in instructions && row.0 !in left && Utf8.Encode(row.0) == op ensures outcome == Run(row.1) {
      KeptRows(instructions, row);
      SearchRow(table, row);
    }
    if outcome != ParseError {
      var i := SearchFinds(table, op);
      KeptRows(instructions, table[i]);
      forall name | name in left ensures Utf8.Encode(name) != op {
        if Utf8.Encode(name) == op {
          Utf8.EncodeInjective(name, table[i].0);
        }
      }
    }
  }

  lemma SearchRow(table: Table, row: (string, string))
    requires NoRepeats(table) && row in table
    ensures Search(table, Utf8.Encode(row.0)) == Some(row.1)
  {
    hide Search, Find, NoRepeats;
    var i :| 0 <= i < |table| && table[i] == row;
    SearchName(table, row.0);
    FindRow(table, i);
  }

  lemma {:induction false} SelectedRows(instructions: Table, row: (string, string))
    ensures row in Selected(instructions) <==> row in instructions && row.0 !in SKIPPED
    decreases |instructions|
  {
    if instructions != [] {
      var last := |instructions| - 1;
      SelectedRows(instructions[..last], row);
      assert instructions == instructions[..last] + [instructions[last]];
    }
  }

  // ---- The script -----------------------------------------------------------------------------

  /** Insert the selected instructions one after the other; fails on a repeated one. */
  method BuildTrie(instructions: Table) returns (ok: bool, trie: Node, instLength: nat, ghost s: Shape)
    ensures ok <==> NoRepeats(Selected(instructions))
    ensures ok ==> s.node == trie && IsTree(s) && Stored(s) && fresh(Nodes(s))
    ensures ok ==> Abs(s) == Build(Selected(instructions)) && instLength == MaxLength(Selected(instructions))
    ensures ok ==> Compressed(Abs(s)) && Holds(Abs(s), Selected(instructions))
  {
    hide Compressed, Build, IsTree, Stored, Nodes, Abs, Insert, Lookup, Find, Selected, MaxLength, Holds, NoRepeats;
    trie := new Node(None, map[], None);
    instLength := 0;
    s := Shape(trie, None, map[]);
    LeafShape(s);
    HoldsEmpty();
    BuildNothing();
    assert instructions[..0] == [];
    ok := true;
    for i := 0 to |instructions|
      invariant s.node == trie && IsTree(s) && Stored(s) && fresh(Nodes(s))
      invariant NoRepeats(Selected(instructions[..i]))
      invariant Abs(s) == Build(Selected(instructions[..i]))
      invariant instLength == MaxLength(Selected(instructions[..i]))
    {
      var (inst, expr) := instructions[i];
      SelectedStep(instructions, i);
      if inst in SKIPPED {
        continue;
      }
      instLength := if instLength < |inst| then |inst| else instLength;
      ghost var before := Abs(s);
      BuildHolds(Selected(instructions[..i]));
      ok, s := trie.DoInsert(inst, inst, expr, s);
      HoldsStep(before, Selected(instructions[..i]), inst, expr);
      BuildStep(Selected(instructions[..i]), inst, expr);
      if !ok {
        SelectedMonotone(instructions, i + 1);
        return;
      }
    }
    assert instructions[..|instructions|] == instructions;
    BuildHolds(Selected(instructions));
  }

  lemma BuildNothing()
    ensures Build([]) == Trie(None, map[]) && Selected([]) == []
  {
  }

  /** Walk a node and its children in key order. `None` stands for a failed assertion. */
  method EmitNode(node: Node, idx: nat, ghost s: Shape) returns (code: Option<Code>)
    requires s.node == node && Stored(s) && Compressed(Abs(s))
    ensures code == Emit(Abs(s), idx)
    decreases s, 0
  {
    hide Compressed, Stored, Abs, Emit, EmitCases, EmitChild, SortedKeys, Nodes;
    assert allocated(Nodes(s));
    StoredParts(s);
    AbsParts(s);
    CompressedEdges(Abs(s));
    EmitUnfold(Abs(s), idx);
    if node.children == map[] {
      return None;
    }
    var cases: seq<Case> := [];
    if node.expr.Some? && node.expr.value != "" {
      cases := [Case('\0', Leaf(node.inst.value, node.expr.value))];
    }
    assert cases == NulCase(Abs(s));
    var keys := SortedKeys(node.children.Keys);
    assert keys[0..] == keys;
    for i := 0 to |keys|
      invariant Stored(s) && forall k :: k in keys[i..] ==> k in Abs(s).children
      invariant Emit(Abs(s), idx) == EmitCasesFrom(Abs(s), keys[i..], idx, cases)
    {
      var k := keys[i];
      assert k in keys[i..];
      TailIn(keys[i..], Abs(s).children.Keys);
      StoredParts(s);
      CompressedChild(Abs(s), k);
      EmitCasesStep(Abs(s), keys[i..], idx, cases);
      assert keys[i..][1..] == keys[i + 1..];
      var body := EmitChildNode(node.children[k], k, idx, s.children[k], Abs(s));
      if body.None? {
        return None;
      }
      cases := cases + [Case(k[0], body.value)];
    }
    EmitCasesStep(Abs(s), [], idx, cases);
    return Some(Switch(idx, cases));
  }

  /** Emit what stands in the case of the child `k`: a nested switch, or a leaf. */
  method EmitChildNode(child: Node, k: string, idx: nat, ghost s: Shape, ghost parent: Trie)
    returns (body: Option<Code>)
    requires s.node == child && Stored(s) && Compressed(Abs(s))
    requires k in parent.children && parent.children[k] == Abs(s)
    ensures body == EmitChild(parent, k, idx)
    decreases s, 1
  {
    hide Compressed, Stored, Abs, Emit;
    StoredParts(s);
    AbsParts(s);
    if child.children != map[] {
      body := EmitNode(child, idx + |k|, s);
    } else if child.expr.None? || child.expr.value == "" {
      body := None;
    } else {
      body := Some(Leaf(child.inst.value, child.expr.value));
    }
  }

  /** The whole generator: the emitted parser and the instruction length its buffer is sized by. */
  method Generate(instructions: Table) returns (code: Option<Code>, instLength: nat)
    ensures NoRepeats(Selected(instructions)) ==>
              && code == Program(instructions)
              && instLength == MaxLength(Selected(instructions))
              && (Correct(code, Selected(instructions)) <==> Compilable(Selected(instructions)))
    ensures !NoRepeats(Selected(instructions)) ==> code.None?
  {
    hide Compressed, IsTree, Stored, Nodes, Abs, Emit, Correct, Compilable, Holds, Build;
    var ok, trie;
    ghost var s;
    ok, trie, instLength, s := BuildTrie(instructions);
    if !ok {
      return None, instLength;
    }
    code := EmitNode(trie, 0, s);
    GeneratorTheorem(Abs(s), Selected(instructions));
  }

  // ---- Steps of the table -------------------------------------------------------------

  lemma HoldsEmpty()
    ensures Compressed(Trie(None, map[])) && Holds(Trie(None, map[]), Selected([]))
    ensures NoRepeats(Selected([])) && MaxLength(Selected([])) == 0
  {
  }

  lemma SelectedStep(instructions: Table, i: nat)
    requires i < |instructions|
    ensures Selected(instructions[..i + 1]) ==
            if instructions[i].0 in SKIPPED then Selected(instructions[..i])
            else Selected(instructions[..i]) + [instructions[i]]
  {
    assert instructions[..i + 1][..i] == instructions[..i];
  }

  lemma {:induction false} SelectedMonotone(instructions: Table, i: nat)
    requires i <= |instructions|
    ensures Selected(instructions[..i]) <= Selected(instructions)
    ensures NoRepeats(Selected(instructions)) ==> NoRepeats(Selected(instructions[..i]))
    decreases |instructions| - i
  {
    if i < |instructions| {
      SelectedStep(instructions, i);
      SelectedMonotone(instructions, i + 1);
    } else {
      assert instructions[..i] == instructions;
    }
  }

  /** Inserting the next row, or finding that its name is taken. */
  lemma HoldsStep(t: Trie, table: Table, inst: string, expr: string)
    requires Compressed(t) && Holds(t, table) && NoRepeats(table)
    ensures Lookup(t, inst).None? <==> NoRepeats(table + [(inst, expr)])
    ensures Lookup(t, inst).None? ==>
              && Compressed(Insert(t, inst, Entry(inst, expr)))
              && Holds(Insert(t, inst, Entry(inst, expr)), table + [(inst, expr)])
    ensures MaxLength(table + [(inst, expr)]) == if MaxLength(table) < |inst| then |inst| else MaxLength(table)
  {
    hide Lookup, Insert, Compressed, Find;
    var longer := table + [(inst, expr)];
    assert longer[..|table|] == table;
    TableFacts(t, table);
    if Lookup(t, inst).None? {
      InsertCompressed(t, inst, Entry(inst, expr));
      forall s ensures Lookup(Insert(t, inst, Entry(inst, expr)), s) == EntryFor(longer, s) {
        InsertLookup(t, inst, Entry(inst, expr), s);
        FindAppend(table, (inst, expr), s);
      }
    } else {
      var j := RowOf(t, table, inst);
      assert longer[j].0 == longer[|table|].0;
    }
  }

  // ---- Steps of the emission ------------------------------------------------------------

  /** What is emitted for the remaining keys after the cases already printed. */
  ghost function EmitCasesFrom(t: Trie, keys: seq<string>, idx: nat, done: seq<Case>): Option<Code>
    requires forall k :: k in keys ==> k in t.children
  {
    match EmitCases(t, keys, idx)
    case None => None
    case Some(cases) => Some(Switch(idx, done + cases))
  }

  lemma TailIn(keys: seq<string>, all: set<string>)
    requires keys != [] && forall k :: k in keys ==> k in all
    ensures forall k :: k in keys[1..] ==> k in all
  {
  }

  lemma EmitUnfold(t: Trie, idx: nat)
    ensures Emit(t, idx) ==
            if t.children == map[] then None else EmitCasesFrom(t, SortedKeys(t.children.Keys), idx, NulCase(t))
  {
  }

  lemma EmitCasesStep(t: Trie, keys: seq<string>, idx: nat, done: seq<Case>)
    requires forall k :: k in keys ==> k in t.children
    ensures keys == [] ==> EmitCasesFrom(t, keys, idx, done) == Some(Switch(idx, done))
    ensures keys != [] && EmitChild(t, keys[0], idx).None? ==> EmitCasesFrom(t, keys, idx, done).None?
    ensures keys != [] && EmitChild(t, keys[0], idx).Some? ==>
              EmitCasesFrom(t, keys, idx, done) ==
              EmitCasesFrom(t, keys[1..], idx, done + [Case(FirstChar(keys[0]), EmitChild(t, keys[0], idx).value)])
  {
    assert done + [] == done;
    if keys != [] && EmitChild(t, keys[0], idx).Some? && EmitCases(t, keys[1..], idx).Some? {
      var c := Case(FirstChar(keys[0]), EmitChild(t, keys[0], idx).value);
      assert done + ([c] + EmitCases(t, keys[1..], idx).value) == (done + [c]) + EmitCases(t, keys[1..], idx).value;
    }
  }
}
