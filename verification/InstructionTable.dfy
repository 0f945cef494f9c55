/** The instruction table as a list of names and expressions, searched linearly. */
module InstructionTable {
  import opened Wrappers
  import opened MachineInts
  import opened Trie
  import Utf8

  type Table = seq<(string, string)>

  /** Names that are handled by hand elsewhere and left out of the trie. */
  const SKIPPED: set<string> := {"block", "loop", "if", "try", "then", "else", "try_table"}

  function Selected(instructions: Table): Table {
    if instructions == [] then []
    else
      var last := instructions[|instructions| - 1];
      Selected(instructions[..|instructions| - 1]) + if last.0 in SKIPPED then [] else [last]
  }

  /** The expression of the first row for `op`. */
  function Find(table: Table, op: string): Option<string> {
    if table == [] then None
    else if table[0].0 == op then Some(table[0].1)
    else Find(table[1..], op)
  }

  ghost predicate NoRepeats(table: Table) {
    forall i, j :: 0 <= i < j < |table| ==> table[i].0 != table[j].0
  }

  /** The length of the longest name. */
  function MaxLength(table: Table): (m: nat)
    ensures forall i :: 0 <= i < |table| ==> |table[i].0| <= m
  {
    if table == [] then 0
    else
      var m := MaxLength(table[..|table| - 1]);
      var n := |table[|table| - 1].0|;
      if m < n then n else m
  }

  lemma FindIsMember(table: Table, op: string)
    requires NoRepeats(table)
    ensures forall expr :: Find(table, op) == Some(expr) <==> (op, expr) in table
  {
    if table != [] {
      assert table == [table[0]] + table[1..];
      assert forall row :: row in table[1..] ==> row.0 != table[0].0;
    }
  }

  lemma FindRow(table: Table, i: nat)
    requires NoRepeats(table) && i < |table|
    ensures Find(table, table[i].0) == Some(table[i].1)
  {
    FindIsMember(table, table[i].0);
    assert (table[i].0, table[i].1) in table;
  }

  lemma FindAppend(table: Table, row: (string, string), op: string)
    ensures Find(table + [row], op) ==
            if Find(table, op).Some? then Find(table, op) else if row.0 == op then Some(row.1) else None
  {
    if table != [] {
      assert (table + [row])[1..] == table[1..] + [row];
    }
  }

  /** Tables with the same rows, in whatever order, are searched with the same result. */
  lemma FindAnyOrder(a: Table, b: Table, op: string)
    requires NoRepeats(a) && NoRepeats(b) && forall row :: row in a <==> row in b
    ensures Find(a, op) == Find(b, op)
  {
    FindIsMember(a, op);
    FindIsMember(b, op);
    assert Find(a, op).Some? ==> (op, Find(a, op).value) in b;
    assert Find(b, op).Some? ==> (op, Find(b, op).value) in a;
  }

  // ---- Searching for bytes ----------------------------------------------------------------

  /** The expression of the first row whose name has the bytes `op`. */
  function Search(table: Table, op: seq<Byte>): Option<string> {
    if table == [] then None
    else if Utf8.Encode(table[0].0) == op then Some(table[0].1)
    else Search(table[1..], op)
  }

  lemma {:induction false} SearchName(table: Table, name: string)
    ensures Search(table, Utf8.Encode(name)) == Find(table, name)
    decreases |table|
  {
    if table != [] {
      if Utf8.Encode(table[0].0) == Utf8.Encode(name) {
        Utf8.EncodeInjective(table[0].0, name);
      }
      SearchName(table[1..], name);
    }
  }

  /** A search that finds something finds the row of a name with these bytes. */
  lemma {:induction false} SearchFinds(table: Table, op: seq<Byte>) returns (i: nat)
    requires Search(table, op).Some?
    ensures i < |table| && Utf8.Encode(table[i].0) == op
    decreases |table|
  {
    i := 0;
    if Utf8.Encode(table[0].0) != op {
      i := SearchFinds(table[1..], op);
      i := i + 1;
    }
  }

  // ---- Tries that hold a table --------------------------------------------------------------

  /** The trie holds exactly the rows of the table, each under its name. */
  ghost predicate Holds(t: Trie, table: Table) {
    forall s :: Lookup(t, s) == EntryFor(table, s)
  }

  ghost function EntryFor(table: Table, s: string): Option<Entry> {
    match Find(table, s)
    case None => None
    case Some(expr) => Some(Entry(s, expr))
  }

  lemma {:induction false} MaxLengthReached(table: Table)
    ensures table != [] ==> exists i :: 0 <= i < |table| && |table[i].0| == MaxLength(table)
    decreases |table|
  {
    if table != [] {
      var last := |table| - 1;
      MaxLengthReached(table[..last]);
      if MaxLength(table) == |table[last].0| {
      } else {
        var i :| 0 <= i < last && |table[..last][i].0| == MaxLength(table);
        assert table[i] == table[..last][i];
      }
    }
  }

  /** The longest name does not depend on the order of the rows. */
  lemma MaxLengthAnyOrder(a: Table, b: Table)
    requires forall row :: row in a <==> row in b
    ensures MaxLength(a) == MaxLength(b)
  {
    hide MaxLength;
    MaxLengthMonotone(a, b);
    MaxLengthMonotone(b, a);
  }

  lemma MaxLengthMonotone(a: Table, b: Table)
    requires forall row :: row in a ==> row in b
    ensures MaxLength(a) <= MaxLength(b)
  {
    if a != [] {
      MaxLengthReached(a);
      var i :| 0 <= i < |a| && |a[i].0| == MaxLength(a);
      assert a[i] in b;
      var j :| 0 <= j < |b| && b[j] == a[i];
    }
  }

  /** Any two tries built from the same rows, inserted in any order, are equal. */
  lemma BuildOrderIrrelevant(t: Trie, u: Trie, a: Table, b: Table)
    requires Compressed(t) && Holds(t, a) && NoRepeats(a)
    requires Compressed(u) && Holds(u, b) && NoRepeats(b)
    requires forall row :: row in a <==> row in b
    ensures t == u
  {
    forall s ensures Lookup(t, s) == Lookup(u, s) {
      FindAnyOrder(a, b, s);
    }
    Canonical(t, u);
  }
}
