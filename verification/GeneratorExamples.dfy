/** Instruction tables that scripts/gen-s-parser.py accepts and compiles wrongly, one for each reason. */
module GeneratorExamples {
  import opened Trie
  import opened InstructionTable
  import opened TrieCompiler
  import opened SwitchableTries
  import opened TrieCompilerProofs
  import opened GeneratorProofs
  import opened InstructionParser

  /** The generator prints a parser for the instructions, and it is not a search of their table. */
  ghost predicate CompiledWrongly(instructions: Table) {
    && NoRepeats(Selected(instructions))
    && Program(instructions).Some?
    && !Correct(Program(instructions), Selected(instructions))
  }

  lemma {:induction false} AllSelected(instructions: Table)
    requires forall i :: 0 <= i < |instructions| ==> instructions[i].0 !in SKIPPED
    ensures Selected(instructions) == instructions
    decreases |instructions|
  {
    if instructions != [] {
      AllSelected(instructions[..|instructions| - 1]);
    }
  }

  /** No assertion fails where every row has an action and some name is not empty. */
  lemma Accepted(table: Table)
    requires NoRepeats(table) && NamesAndActions(table)
    ensures Emit(Build(table), 0).Some?
  {
    hide Compressed, Holds, Lookup, Emit, Build, NoRepeats;
    var t := Build(table);
    BuildHolds(table);
    forall s | Lookup(t, s).Some? ensures Lookup(t, s).value.expr != "" {
      var i := RowOf(t, table, s);
    }
    var i :| 0 <= i < |table| && table[i].0 != "";
    TableFacts(t, table);
    assert Lookup(t, table[i].0).Some?;
    LeafHoldsNothing(t, table[i].0);
    EmitSucceeds(t, 0);
  }

  /** Such a table is compiled wrongly unless it is compilable. */
  lemma NotCompilable(table: Table)
    requires forall i :: 0 <= i < |table| ==> table[i].0 !in SKIPPED
    requires NoRepeats(table) && NamesAndActions(table) && !Compilable(table)
    ensures CompiledWrongly(table)
  {
    hide NoRepeats, NamesAndActions, Compilable, Correct, Emit, Build, Compressed, Holds;
    AllSelected(table);
    hide Selected;
    Accepted(table);
    BuildHolds(table);
    GeneratorTheorem(Build(table), table);
  }

  // ---- Characters of several bytes ------------------------------------------------------------

  const E_ACUTE := '\U{e9}'

  /** Two bytes for one character: the longest name does not pass the length check. */
  lemma TooManyBytes()
    ensures CompiledWrongly([(['a', E_ACUTE], "A()")])
  {
    var table := [(['a', E_ACUTE], "A()")];
    var name := table[0].0;
    assert !NamesFit(table) by {
      hide Utf8.Encode;
      Utf8.EncodeLength(name);
      assert name[1] as int >= 0x80;
      assert MaxLength(table) == 2;
    }
    hide NamesFit, NamesSwitch, NulFree, CompiledWrongly;
    assert name != "";
    NotCompilable(table);
  }

  /** A character that is no byte is no case label. */
  lemma NoLabel()
    ensures CompiledWrongly([([E_ACUTE], "A()"), ("longer", "B()")])
  {
    var table := [([E_ACUTE], "A()"), ("longer", "B()")];
    assert !NamesSwitch(table) by {
      assert table[0].0 != "" && Label(table[0].0[0]).None?;
    }
    hide NamesFit, NamesSwitch, NulFree, CompiledWrongly;
    assert table[0].0 != "" && |table[0].0| == 1 && |table[1].0| == 6;
    assert table[1].0 !in SKIPPED;
    NotCompilable(table);
  }

  /** The switch over the third character looks at the third byte. */
  lemma WrongByte()
    ensures CompiledWrongly([(['a', E_ACUTE, 'b'], "A()"), (['a', E_ACUTE, 'c'], "B()"), ("longer", "C()")])
  {
    var table := [(['a', E_ACUTE, 'b'], "A()"), (['a', E_ACUTE, 'c'], "B()"), ("longer", "C()")];
    assert table[0].0[2] != table[1].0[2] && |table[2].0| == 6;
    assert !NamesSwitch(table) by {
      hide PartsWell, Label, Utf8.Ascii;
      var k := ['a', E_ACUTE];
      assert !Utf8.Ascii(k) by { NotAscii(k, 1); }
      PartsThrough(k, "b", "c");
      assert table[0].0 == k + "b" && table[1].0 == k + "c";
    }
    hide NamesFit, NamesSwitch, NulFree, CompiledWrongly;
    assert table[0].0[1] == table[1].0[1] == E_ACUTE && table[2].0[0] == 'l';
    NotCompilable(table);
  }

  lemma NotAscii(s: string, i: nat)
    requires i < |s| && s[i] as int >= 0x80
    ensures !Utf8.Ascii(s)
  {
  }

  // ---- Literals ---------------------------------------------------------------------------------

  /** A quotation mark ends the string literal. */
  lemma BrokenLiteral()
    ensures CompiledWrongly([("a\"b", "A()")])
  {
    var table := [("a\"b", "A()")];
    assert !NamesFit(table) by {
      assert table[0].0[1] == '"';
    }
    hide NamesFit, NamesSwitch, NulFree, CompiledWrongly;
    assert table[0].0[1] == '"';
    NotCompilable(table);
  }
}
