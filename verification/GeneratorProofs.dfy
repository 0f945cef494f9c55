/**
 The whole generator of scripts/gen-s-parser.py: which instruction tables it turns into a parser
 that means a linear search of the table, proved in both directions.
 */
module GeneratorProofs {
  import opened Wrappers
  import opened MachineInts
  import opened Trie
  import opened TrieCompiler
  import opened SwitchableTries
  import opened InstructionTable
  import opened TrieCompilerProofs

  // ---- What is wanted -----------------------------------------------------------------------

  /** What a linear search of the table makes of an operator. */
  ghost function SearchOutcome(table: Table, op: seq<Byte>): Outcome {
    match Search(table, op)
    case None => ParseError
    case Some(action) => Run(action)
  }

  ghost predicate MeansSearch(c: Code, table: Table) {
    forall op :: RunProgram(c, MaxLength(table), op) == SearchOutcome(table, op)
  }

  /** The generator finishes, its output compiles, and it runs what a linear search finds. */
  ghost predicate Correct(emitted: Option<Code>, table: Table) {
    emitted.Some? && WellFormed(emitted.value, MaxLength(table) + 1) && MeansSearch(emitted.value, table)
  }

  // ---- Which tables allow it ------------------------------------------------------------------

  /** There is something to switch on, and every row has an action. */
  ghost predicate NamesAndActions(table: Table) {
    && (exists i :: 0 <= i < |table| && table[i].0 != "")
    && (forall i :: 0 <= i < |table| ==> table[i].1 != "")
  }

  /** No name is the beginning of another one up to a NUL character. */
  ghost predicate NulFree(table: Table) {
    forall i, j :: 0 <= i < |table| && 0 <= j < |table| ==> !(table[i].0 + ['\0'] <= table[j].0)
  }

  /** Every name can be quoted, and its bytes fit a buffer sized by the characters of the longest name. */
  ghost predicate NamesFit(table: Table) {
    forall i :: 0 <= i < |table| ==> Quotable(table[i].0) && |Utf8.Encode(table[i].0)| <= MaxLength(table)
  }

  /** Names start with a label, are ASCII up to where they part, and go on with a label there. */
  ghost predicate NamesSwitch(table: Table) {
    && (forall i :: 0 <= i < |table| && table[i].0 != "" ==> Label(table[i].0[0]).Some?)
    && (forall i, j :: 0 <= i < |table| && 0 <= j < |table| && table[i].0 != table[j].0 ==>
          PartsWell(table[i].0, table[j].0))
  }

  ghost predicate Compilable(table: Table) {
    NamesAndActions(table) && NulFree(table) && NamesFit(table) && NamesSwitch(table)
  }

  // ---- A table and the trie that holds it ---------------------------------------------------

  lemma TableFacts(t: Trie, table: Table)
    requires Holds(t, table) && NoRepeats(table)
    ensures Labelled(t, "") && Bounded(t, MaxLength(table))
    ensures forall i :: 0 <= i < |table| ==> Lookup(t, table[i].0) == Some(Entry(table[i].0, table[i].1))
    ensures forall s :: Lookup(t, s).Some? ==> (s, Lookup(t, s).value.expr) in table
  {
    forall i | 0 <= i < |table| ensures Lookup(t, table[i].0) == Some(Entry(table[i].0, table[i].1)) {
      FindRow(table, i);
    }
    forall s | Lookup(t, s).Some?
      ensures (s, Lookup(t, s).value.expr) in table && |s| <= MaxLength(table) && Lookup(t, s).value.inst == "" + s
    {
      FindIsMember(table, s);
    }
  }

  lemma RowOf(t: Trie, table: Table, s: string) returns (i: nat)
    requires Holds(t, table) && NoRepeats(table) && Lookup(t, s).Some?
    ensures i < |table| && table[i] == (s, Lookup(t, s).value.expr)
  {
    hide Lookup, Find;
    TableFacts(t, table);
    i :| 0 <= i < |table| && table[i] == (s, Lookup(t, s).value.expr);
  }

  lemma NotContinued(t: Trie, table: Table, s: string, u: string)
    requires Holds(t, table) && NoRepeats(table) && NulFree(table) && Lookup(t, s).Some?
    ensures Lookup(t, s + ['\0'] + u).None?
  {
    hide Lookup, Find, Holds;
    var w := s + ['\0'] + u;
    var i := RowOf(t, table, s);
    if Lookup(t, w).Some? {
      var j := RowOf(t, table, w);
    }
  }

  /** The trie can be switched over exactly when the names of the table say so. */
  lemma SwitchableTable(t: Trie, table: Table)
    requires Compressed(t) && Holds(t, table) && NoRepeats(table)
    ensures Switchable(t) <==> NamesSwitch(table)
  {
    hide Lookup, Find, Holds, Compressed, PartsWell, Label, Switchable;
    SwitchableExactly(t);
    if NamesSwitch(table) {
      forall s | Lookup(t, s).Some? && s != "" ensures Label(s[0]).Some? {
        var i := RowOf(t, table, s);
      }
      forall s, u | Lookup(t, s).Some? && Lookup(t, u).Some? && s != u ensures PartsWell(s, u) {
        var i := RowOf(t, table, s);
        var j := RowOf(t, table, u);
      }
    }
    if Switchable(t) {
      TableFacts(t, table);
    }
  }

  lemma CompilableTrie(t: Trie, table: Table)
    requires Compressed(t) && Holds(t, table) && NoRepeats(table) && Compilable(table)
    ensures AllActions(t) && AllQuotable(t) && NoNul(t) && Switchable(t) && t.children != map[]
  {
    hide Find, Holds, Compressed, Quotable, NamesSwitch, NulFree;
    TableFacts(t, table);
    forall s | Lookup(t, s).Some? ensures Lookup(t, s).value.expr != "" && Quotable(Lookup(t, s).value.inst) {
      var i := RowOf(t, table, s);
    }
    forall s, u | Lookup(t, s).Some? ensures Lookup(t, s + ['\0'] + u).None? {
      NotContinued(t, table, s, u);
    }
    SwitchableTable(t, table);
    var i :| 0 <= i < |table| && table[i].0 != "";
    assert Lookup(t, table[i].0).Some?;
  }

  // ---- A compilable table is compiled correctly -------------------------------------------

  lemma InBounds(c: Code, buf: seq<Byte>, op: seq<Byte>)
    requires WellFormed(c, |buf|)
    ensures Eval(c, buf, op) != OutOfBounds
  {
  }

  /** The emitted program runs the action of a name that the table has. */
  lemma RunsRow(t: Trie, table: Table, i: nat)
    requires Compressed(t) && Holds(t, table) && NoRepeats(table) && i < |table|
    requires AllActions(t) && AllQuotable(t) && NoNul(t) && Switchable(t) && Emit(t, 0).Some?
    requires |Utf8.Encode(table[i].0)| <= MaxLength(table)
    ensures RunProgram(Emit(t, 0).value, MaxLength(table), Utf8.Encode(table[i].0)) == Run(table[i].1)
  {
    hide Emit, Compressed, AllActions, AllQuotable, NoNul, Switchable, Eval, Lookup, Find;
    hide Utf8.Encode, Padded, ZeroPadded;
    var name := table[i].0;
    TableFacts(t, table);
    var op := Utf8.Encode(name);
    assert "" + name == name;
    PaddedIsZeroPadded(op, MaxLength(table));
    Complete(t, "", name, Padded(op, MaxLength(table) + 1), op);
  }

  /** It runs nothing for bytes that are no name's. */
  lemma RunsNothing(t: Trie, table: Table, op: seq<Byte>)
    requires Compressed(t) && Holds(t, table) && NoRepeats(table)
    requires Emit(t, 0).Some? && WellFormed(Emit(t, 0).value, MaxLength(table) + 1) && Search(table, op).None?
    ensures RunProgram(Emit(t, 0).value, MaxLength(table), op) == ParseError
  {
    hide Emit, Compressed, WellFormed, Eval, Lookup, Search, Find, Utf8.Encode;
    if |op| <= MaxLength(table) {
      var c, buf := Emit(t, 0).value, Padded(op, MaxLength(table) + 1);
      InBounds(c, buf, op);
      TableFacts(t, table);
      if Eval(c, buf, op).Run? {
        var name := Sound(t, "", buf, op);
        assert name[0..] == name;
        var i := RowOf(t, table, name);
        SearchName(table, name);
        FindRow(table, i);
      }
    }
  }

  /** For one operator, the emitted program does what the linear search does. */
  lemma RunsAsSearched(t: Trie, table: Table, op: seq<Byte>)
    requires Compressed(t) && Holds(t, table) && NoRepeats(table)
    requires AllActions(t) && AllQuotable(t) && NoNul(t) && Switchable(t) && NamesFit(table)
    requires Emit(t, 0).Some? && WellFormed(Emit(t, 0).value, MaxLength(table) + 1)
    ensures RunProgram(Emit(t, 0).value, MaxLength(table), op) == SearchOutcome(table, op)
  {
    hide Emit, Compressed, WellFormed, AllActions, AllQuotable, NoNul, Switchable, Holds, RunProgram;
    hide Lookup, Find, Search, Utf8.Encode, Quotable, NoRepeats, MaxLength;
    if Search(table, op).None? {
      RunsNothing(t, table, op);
    } else {
      var i := SearchFinds(table, op);
      SearchName(table, table[i].0);
      FindRow(table, i);
      RunsRow(t, table, i);
    }
  }

  lemma SearchesAlways(t: Trie, table: Table)
    requires Compressed(t) && Holds(t, table) && NoRepeats(table)
    requires AllActions(t) && AllQuotable(t) && NoNul(t) && Switchable(t) && NamesFit(table)
    requires Emit(t, 0).Some? && WellFormed(Emit(t, 0).value, MaxLength(table) + 1)
    ensures MeansSearch(Emit(t, 0).value, table)
  {
    forall op ensures RunProgram(Emit(t, 0).value, MaxLength(table), op) == SearchOutcome(table, op) {
      RunsAsSearched(t, table, op);
    }
  }

  /** A compilable table is compiled correctly. */
  lemma CompiledCorrectly(t: Trie, table: Table)
    requires Compressed(t) && Holds(t, table) && NoRepeats(table) && Compilable(table)
    ensures Correct(Emit(t, 0), table)
  {
    hide Emit, Compressed, WellFormed, AllActions, AllQuotable, NoNul, Switchable, Bounded, Labelled, Holds;
    hide RunProgram, SearchOutcome, NamesFit;
    CompilableTrie(t, table);
    hide Compilable, Lookup, NoRepeats, MaxLength;
    assert Labelled(t, "") && Bounded(t, MaxLength(table)) by { TableFacts(t, table); }
    EmitSucceeds(t, 0);
    EmitWellFormed(t, "", MaxLength(table), MaxLength(table) + 1);
    hide MeansSearch;
    SearchesAlways(t, table);
  }

  // ---- A table that is compiled correctly is compilable ---------------------------------

  /** A row that is not lost has an action and a name that can be quoted and that fits the buffer. */
  lemma RowKept(t: Trie, table: Table, i: nat)
    requires Compressed(t) && Holds(t, table) && NoRepeats(table) && i < |table|
    requires Correct(Emit(t, 0), table)
    ensures table[i].1 != "" && Quotable(table[i].0)
    ensures RunsName(Emit(t, 0).value, table[i].0, MaxLength(table))
  {
    hide Emit, Compressed, WellFormed, Lookup, Holds, Eval, Find, Search, Utf8.Encode, Quotable;
    var op := Utf8.Encode(table[i].0);
    SearchName(table, table[i].0);
    FindRow(table, i);
    assert RunProgram(Emit(t, 0).value, MaxLength(table), op) == Run(table[i].1);
    TableFacts(t, table);
    var name := Sound(t, "", Padded(op, MaxLength(table) + 1), op);
    LiteralName(name, table[i].0);
  }

  lemma SomeName(t: Trie, table: Table)
    requires Compressed(t) && Holds(t, table) && NoRepeats(table) && t.children != map[]
    ensures exists i :: 0 <= i < |table| && table[i].0 != ""
  {
    hide Lookup, Holds;
    var k :| k in t.children;
    var w := NameBelow(t, k);
    var i := RowOf(t, table, w);
  }

  lemma OnlyIfNulFree(t: Trie, table: Table)
    requires Compressed(t) && Holds(t, table) && NoRepeats(table) && NamesAndActions(table)
    requires Emit(t, 0).Some? && WellFormed(Emit(t, 0).value, MaxLength(table) + 1)
    ensures NulFree(table)
  {
    hide Emit, Compressed, WellFormed, Lookup, Holds;
    TableFacts(t, table);
    forall i, j | 0 <= i < |table| && 0 <= j < |table| ensures !(table[i].0 + ['\0'] <= table[j].0) {
      var s, w := table[i].0, table[j].0;
      if s + ['\0'] <= w {
        var u := w[|s| + 1..];
        assert w == s + ['\0'] + u;
        NulClash(t, s, u, 0, MaxLength(table) + 1);
      }
    }
  }

  lemma OnlyIfNamesSwitch(t: Trie, table: Table)
    requires Compressed(t) && Holds(t, table) && NoRepeats(table) && Correct(Emit(t, 0), table)
    ensures NamesSwitch(table)
  {
    hide Emit, Compressed, WellFormed, MeansSearch, RunsName, Lookup, Holds, NamesSwitch, Switchable;
    TableFacts(t, table);
    forall s | Lookup(t, s).Some? ensures RunsName(Emit(t, 0).value, "" + s, MaxLength(table)) {
      var i := RowOf(t, table, s);
      RowKept(t, table, i);
      assert "" + s == s;
    }
    OnlyIfSwitchable(t, "", MaxLength(table));
    SwitchableTable(t, table);
  }

  lemma RowsKept(t: Trie, table: Table)
    requires Compressed(t) && Holds(t, table) && NoRepeats(table) && Correct(Emit(t, 0), table)
    ensures NamesFit(table) && forall i :: 0 <= i < |table| ==> table[i].1 != ""
  {
    hide Emit, Compressed, WellFormed, Lookup, Holds, MeansSearch, Quotable, Eval, MaxLength, NoRepeats;
    forall i | 0 <= i < |table|
      ensures table[i].1 != "" && Quotable(table[i].0) && |Utf8.Encode(table[i].0)| <= MaxLength(table)
    {
      RowKept(t, table, i);
    }
  }

  lemma CorrectOnlyIfCompilable(t: Trie, table: Table)
    requires Compressed(t) && Holds(t, table) && NoRepeats(table)
    requires Correct(Emit(t, 0), table)
    ensures Compilable(table)
  {
    hide Emit, Compressed, WellFormed, Holds, MeansSearch, NamesFit, NamesSwitch, NulFree, MaxLength, NoRepeats;
    EmitParts(t, 0);
    SomeName(t, table);
    RowsKept(t, table);
    OnlyIfNulFree(t, table);
    OnlyIfNamesSwitch(t, table);
  }

  /**
   For a table without repeated names, the generated parser is the linear search of
   the table, for every string of bytes, exactly when the table is compilable.
   */
  lemma GeneratorTheorem(t: Trie, table: Table)
    requires Compressed(t) && Holds(t, table) && NoRepeats(table)
    ensures Correct(Emit(t, 0), table) <==> Compilable(table)
  {
    hide Correct, Compilable, Compressed, Holds;
    if Compilable(table) {
      CompiledCorrectly(t, table);
    }
    if Correct(Emit(t, 0), table) {
      CorrectOnlyIfCompilable(t, table);
    }
  }

  // ---- The condition, character by character ----------------------------------------------------

  /** A character that can stand between single quotes, as a byte. */
  predicate CaseLabel(c: char) {
    c as int < 0x80 && c !in {'\'', '\\', '\n', '\r'}
  }

  /** Up to position `p` the two names are the same, and not any further. */
  predicate PartAt(a: string, b: string, p: nat) {
    p <= |a| && p <= |b| && a[..p] == b[..p] && (p < |a| && p < |b| ==> a[p] != b[p])
  }

  /** What a row must be like by itself: an action, no quote, and no more bytes than some name has characters. */
  ghost predicate GoodRow(table: Table, name: string, action: string) {
    && action != ""
    && (forall k :: 0 <= k < |name| ==> name[k] !in {'"', '\\', '\n', '\r'})
    && (exists i :: 0 <= i < |table| && |Utf8.Encode(name)| <= |table[i].0|)
    && (name != "" ==> CaseLabel(name[0]))
  }

  /** What two rows with different names must be like. */
  ghost predicate GoodPair(a: string, b: string) {
    && !(a + "\0" <= b)
    && forall p: nat :: PartAt(a, b, p) ==>
         (forall k :: 0 <= k < p ==> a[k] as int < 0x80) && (p < |a| ==> CaseLabel(a[p]))
  }

  /** When a table is compilable, in terms of the characters of its names. */
  lemma CompilableMeans(table: Table)
    ensures Compilable(table) <==>
            && (exists i :: 0 <= i < |table| && table[i].0 != "")
            && (forall i :: 0 <= i < |table| ==> GoodRow(table, table[i].0, table[i].1))
            && forall i, j :: 0 <= i < |table| && 0 <= j < |table| && table[i].0 != table[j].0 ==>
                 GoodPair(table[i].0, table[j].0)
  {
    hide MaxLength, GoodRow, GoodPair, Quotable, Label, PartsWell;
    forall i | 0 <= i < |table|
      ensures GoodRow(table, table[i].0, table[i].1) <==>
              && table[i].1 != "" && Quotable(table[i].0) && |Utf8.Encode(table[i].0)| <= MaxLength(table)
              && (table[i].0 != "" ==> Label(table[i].0[0]).Some?)
    {
      RowMeans(table, i);
    }
    forall i, j | 0 <= i < |table| && 0 <= j < |table|
      ensures table[i].0 != table[j].0 ==>
                (GoodPair(table[i].0, table[j].0) <==>
                 !(table[i].0 + ['\0'] <= table[j].0) && PartsWell(table[i].0, table[j].0))
      ensures table[i].0 == table[j].0 ==> !(table[i].0 + ['\0'] <= table[j].0)
    {
      PairMeans(table[i].0, table[j].0);
    }
  }

  lemma RowMeans(table: Table, i: nat)
    requires i < |table|
    ensures GoodRow(table, table[i].0, table[i].1) <==>
            && table[i].1 != "" && Quotable(table[i].0) && |Utf8.Encode(table[i].0)| <= MaxLength(table)
            && (table[i].0 != "" ==> Label(table[i].0[0]).Some?)
  {
    hide Utf8.Encode, MaxLength;
    MaxLengthReached(table);
  }

  lemma PairMeans(a: string, b: string)
    ensures GoodPair(a, b) <==> !(a + ['\0'] <= b) && PartsWell(a, b)
  {
    var q := |CommonPrefix(a, b)|;
    assert PartAt(a, b, q);
    forall p: nat | PartAt(a, b, p) ensures p == q {
      PartsOnce(a, b, p, q);
      PartsOnce(a, b, q, p);
    }
    assert forall k :: 0 <= k < q ==> a[..q][k] == a[k];
    hide CommonPrefix;
    assert Utf8.Ascii(a[..q]) <==> forall k :: 0 <= k < q ==> a[k] as int < 0x80;
  }

  lemma SameBefore(a: string, b: string, p: nat, k: nat)
    requires k < p <= |a| && p <= |b| && a[..p] == b[..p]
    ensures a[k] == b[k]
  {
    assert a[..p][k] == b[..p][k];
  }

  lemma PartsOnce(a: string, b: string, p: nat, q: nat)
    requires PartAt(a, b, p) && PartAt(a, b, q)
    ensures p <= q
  {
    if q < p {
      SameBefore(a, b, p, q);
      assert false;
    }
  }

  // ---- Plain names ------------------------------------------------------------------------------

  predicate PlainName(name: string) {
    forall i :: 0 <= i < |name| ==> 0 < name[i] as int < 0x80 && name[i] !in {'\'', '"', '\\', '\n', '\r'}
  }

  /** For plain names, all that is needed is a name and an action for every row. */
  lemma PlainTables(table: Table)
    requires forall i :: 0 <= i < |table| ==> PlainName(table[i].0)
    ensures Compilable(table) <==> NamesAndActions(table)
  {
    hide NamesAndActions, MaxLength, PlainName, Quotable, PartsWell, Label;
    forall i | 0 <= i < |table|
      ensures Quotable(table[i].0) && |Utf8.Encode(table[i].0)| <= MaxLength(table)
      ensures table[i].0 != "" ==> Label(table[i].0[0]).Some?
    {
      PlainParts(table[i].0);
      Utf8.EncodeLength(table[i].0);
    }
    forall i, j | 0 <= i < |table| && 0 <= j < |table| && table[i].0 != table[j].0
      ensures PartsWell(table[i].0, table[j].0)
    {
      PlainPartsWell(table[i].0, table[j].0);
    }
    forall i, j | 0 <= i < |table| && 0 <= j < |table| ensures !(table[i].0 + ['\0'] <= table[j].0) {
      PlainNotContinued(table[i].0, table[j].0);
    }
  }

  lemma PlainParts(name: string)
    requires PlainName(name)
    ensures Utf8.Ascii(name) && Quotable(name) && (name != "" ==> Label(name[0]).Some?)
  {
  }

  lemma PlainPartsWell(a: string, b: string)
    requires PlainName(a)
    ensures PartsWell(a, b)
  {
  }

  lemma PlainNotContinued(a: string, b: string)
    requires PlainName(b)
    ensures !(a + ['\0'] <= b)
  {
    if |a| < |b| {
      assert (a + ['\0'])[|a|] == '\0' != b[|a|];
    }
  }
}
