/** The index spaces of `WasmBinaryWriter::BinaryIndexes` in src/wasm-binary.h. */
module BinaryIndexes {
  import opened MachineInts

  /** `size` is how many binary indexes the definition takes: 1, or the arity of a global's type. */
  datatype Definition = Definition(name: string, imported: bool, size: nat)

  ghost predicate UniqueNames(source: seq<Definition>) {
    forall i, j :: 0 <= i < j < |source| ==> source[i].name != source[j].name
  }

  /** The indexes taken by the first `k` definitions that are (or are not) imported. */
  function Taken(source: seq<Definition>, imported: bool, k: nat): nat
    requires k <= |source|
  {
    if k == 0 then 0
    else Taken(source, imported, k - 1) + if source[k - 1].imported == imported then source[k - 1].size else 0
  }

  function Total(source: seq<Definition>): nat {
    Taken(source, true, |source|) + Taken(source, false, |source|)
  }

  /** The first index: after the imports before it, or after all imports and the definitions before it. */
  function First(source: seq<Definition>, i: nat): nat
    requires i < |source|
  {
    if source[i].imported then Taken(source, true, i)
    else Taken(source, true, |source|) + Taken(source, false, i)
  }

  /** Functions, tags, tables and memories take one index each. */
  ghost predicate OneEach(source: seq<Definition>) {
    forall i :: 0 <= i < |source| ==> source[i].size == 1
  }

  /** What an Index holds, which has 32 bits. */
  function Index(n: nat): nat {
    n % 0x1_0000_0000
  }

  /** Every definition has the index that its place gives it, and there are no other entries. */
  ghost predicate Assigned(source: seq<Definition>, indexes: map<string, nat>) {
    && (forall i :: 0 <= i < |source| ==>
          source[i].name in indexes && indexes[source[i].name] == First(source, i))
    && (forall n :: n in indexes ==> exists i :: 0 <= i < |source| && source[i].name == n)
  }

  /** The same for the 32 bits that are kept of it. */
  ghost predicate AssignedBits(source: seq<Definition>, indexes: map<string, nat>) {
    && (forall i :: 0 <= i < |source| ==>
          source[i].name in indexes && indexes[source[i].name] == First(source, i) % 0x1_0000_0000)
    && (forall n :: n in indexes ==> exists i :: 0 <= i < |source| && source[i].name == n)
  }

  /** Up to 2^32 indexes, nothing is lost. */
  lemma NoneWrap(source: seq<Definition>, indexes: map<string, nat>)
    requires AssignedBits(source, indexes) && Total(source) <= 0x1_0000_0000
    requires forall i :: 0 <= i < |source| ==> source[i].size > 0
    ensures Assigned(source, indexes)
  {
    hide First;
    forall i | 0 <= i < |source| ensures indexes[source[i].name] == First(source, i) {
      IndexBelow(source, i);
    }
  }

  /** The loops have handled the first `imports` imports and the first `defined` definitions. */
  ghost predicate Partial(source: seq<Definition>, indexes: map<string, nat>, imports: nat, defined: nat) {
    && (forall i :: 0 <= i < |source| ==>
          && (source[i].name in indexes <==> i < if source[i].imported then imports else defined)
          && (source[i].name in indexes ==> indexes[source[i].name] == Index(First(source, i))))
    && (forall n :: n in indexes ==> exists i :: 0 <= i < |source| && source[i].name == n)
  }

  /** One round of a loop that handles imports (or definitions). */
  lemma NextEntry(source: seq<Definition>, indexes: map<string, nat>, imports: nat, defined: nat, imported: bool)
    requires UniqueNames(source) && Partial(source, indexes, imports, defined)
    requires (if imported then imports else defined) < |source|
    ensures var i := if imported then imports else defined;
            var indexes' := if source[i].imported != imported then indexes
                            else indexes[source[i].name := Index(First(source, i))];
            && Partial(source, indexes', if imported then i + 1 else imports, if imported then defined else i + 1)
            && (source[i].imported == imported ==> source[i].name !in indexes)
  {
    hide First, Index;
    var i := if imported then imports else defined;
    if source[i].imported == imported {
      var indexes' := indexes[source[i].name := Index(First(source, i))];
      forall n | n in indexes' ensures exists j :: 0 <= j < |source| && source[j].name == n {
        assert n !in indexes ==> source[i].name == n;
      }
    }
  }

  lemma StartEntries(source: seq<Definition>)
    ensures Partial(source, map[], 0, 0)
  {
  }

  lemma AllEntries(source: seq<Definition>, indexes: map<string, nat>)
    requires Partial(source, indexes, |source|, |source|)
    ensures AssignedBits(source, indexes)
  {
  }

  lemma AddedEntry(indexes: map<string, nat>, name: string, index: nat)
    requires name !in indexes
    ensures |indexes[name := index]| == |indexes| + 1
  {
  }

  lemma TakenNone(source: seq<Definition>)
    ensures Taken(source, true, 0) == 0 && Taken(source, false, 0) == 0
  {
  }

  /** One index for each definition of a kind: the size of the map so far. */
  method AddIndexes(source: seq<Definition>) returns (indexes: map<string, nat>)
    requires UniqueNames(source) && OneEach(source)
    ensures AssignedBits(source, indexes) && |indexes| == |source|
    ensures |source| <= 0x1_0000_0000 ==> Assigned(source, indexes)
  {
    hide Partial, UniqueNames, Assigned, AssignedBits, First, Taken, OneEach, Total, Index;
    indexes := map[];
    StartEntries(source);
    TakenNone(source);
    for i := 0 to |source|
      invariant Partial(source, indexes, i, 0) && |indexes| == Taken(source, true, i)
    {
      NextEntry(source, indexes, i, 0, true);
      NextFirst(source, i);
      assert source[i].size == 1 by { SizeOne(source, i); }
      if source[i].imported {
        var index := Index(|indexes|);
        AddedEntry(indexes, source[i].name, index);
        indexes := indexes[source[i].name := index];
      }
    }
    for i := 0 to |source|
      invariant Partial(source, indexes, |source|, i)
      invariant |indexes| == Taken(source, true, |source|) + Taken(source, false, i)
    {
      NextEntry(source, indexes, |source|, i, false);
      NextFirst(source, i);
      assert source[i].size == 1 by { SizeOne(source, i); }
      if !source[i].imported {
        var index := Index(|indexes|);
        AddedEntry(indexes, source[i].name, index);
        indexes := indexes[source[i].name := index];
      }
    }
    AllEntries(source, indexes);
    TotalOneEach(source);
    TotalTaken(source);
    if |source| <= 0x1_0000_0000 {
      assert forall i :: 0 <= i < |source| ==> source[i].size > 0 by { SizesOne(source); }
      NoneWrap(source, indexes);
    }
  }

  lemma TotalTaken(source: seq<Definition>)
    ensures Total(source) == Taken(source, true, |source|) + Taken(source, false, |source|)
  {
  }

  lemma SizeOne(source: seq<Definition>, i: nat)
    requires OneEach(source) && i < |source|
    ensures source[i].size == 1
  {
  }

  lemma SizesOne(source: seq<Definition>)
    requires OneEach(source)
    ensures forall i :: 0 <= i < |source| ==> source[i].size > 0
  {
  }

  lemma IndexAdds(n: nat, size: nat)
    ensures Index(Index(n) + size) == Index(n + size)
  {
    var m := 0x1_0000_0000;
    var q, r := n / m, n % m;
    var k, s := (r + size) / m, (r + size) % m;
    assert n + size == (q + k) * m + s;
    DivModUnique(n + size, m, q + k, s);
  }

  lemma NextFirst(source: seq<Definition>, i: nat)
    requires i < |source|
    ensures var d := source[i];
            && First(source, i) == (if d.imported then 0 else Taken(source, true, |source|))
                                     + Taken(source, d.imported, i)
            && Taken(source, d.imported, i + 1) == Taken(source, d.imported, i) + d.size
            && Taken(source, !d.imported, i + 1) == Taken(source, !d.imported, i)
  {
  }

  /** A tuple global takes as many indexes as its type has elements. The counter has 32 bits. */
  method AddGlobals(globals: seq<Definition>) returns (indexes: map<string, nat>, globalCount: nat)
    requires UniqueNames(globals)
    ensures AssignedBits(globals, indexes) && globalCount == Total(globals) % 0x1_0000_0000
    ensures Total(globals) <= 0x1_0000_0000 && (forall i :: 0 <= i < |globals| ==> globals[i].size > 0) ==>
              Assigned(globals, indexes)
  {
    hide Partial, UniqueNames, Assigned, AssignedBits, Index, First, Taken;
    indexes := map[];
    globalCount := 0;
    StartEntries(globals);
    TakenNone(globals);
    IndexZero();
    for i := 0 to |globals|
      invariant Partial(globals, indexes, i, 0) && globalCount == Index(Taken(globals, true, i))
    {
      NextEntry(globals, indexes, i, 0, true);
      NextFirst(globals, i);
      if globals[i].imported {
        IndexAdds(Taken(globals, true, i), globals[i].size);
        indexes := indexes[globals[i].name := globalCount];
        globalCount := Index(globalCount + globals[i].size);
      }
    }
    for i := 0 to |globals|
      invariant Partial(globals, indexes, |globals|, i)
      invariant globalCount == Index(Taken(globals, true, |globals|) + Taken(globals, false, i))
    {
      NextEntry(globals, indexes, |globals|, i, false);
      NextFirst(globals, i);
      if !globals[i].imported {
        IndexAdds(Taken(globals, true, |globals|) + Taken(globals, false, i), globals[i].size);
        indexes := indexes[globals[i].name := globalCount];
        globalCount := Index(globalCount + globals[i].size);
      }
    }
    AllEntries(globals, indexes);
    IndexRemainder(Total(globals));
    if Total(globals) <= 0x1_0000_0000 && forall i :: 0 <= i < |globals| ==> globals[i].size > 0 {
      NoneWrap(globals, indexes);
    }
  }

  lemma IndexZero()
    ensures Index(0) == 0
  {
  }

  lemma IndexRemainder(n: nat)
    ensures Index(n) == n % 0x1_0000_0000
  {
  }

  // ---- The intervals tile the index space ---------------------------------------------------

  lemma {:induction false} TakenMonotone(source: seq<Definition>, imported: bool, j: nat, k: nat)
    requires j <= k <= |source|
    ensures Taken(source, imported, j) <= Taken(source, imported, k)
    decreases k - j
  {
    if j < k {
      TakenMonotone(source, imported, j, k - 1);
    }
  }

  lemma TotalOneEach(source: seq<Definition>)
    requires OneEach(source)
    ensures Total(source) == |source|
  {
    TakenOneEach(source, |source|);
  }

  lemma {:induction false} TakenOneEach(source: seq<Definition>, k: nat)
    requires OneEach(source) && k <= |source|
    ensures Taken(source, true, k) + Taken(source, false, k) == k
    decreases k
  {
    if k > 0 {
      TakenOneEach(source, k - 1);
    }
  }

  /** Imports come before definitions, and otherwise the order of the module is kept, without overlap. */
  lemma Ordered(source: seq<Definition>, i: nat, j: nat)
    requires i < |source| && j < |source|
    requires (source[i].imported && !source[j].imported) || (source[i].imported == source[j].imported && i < j)
    ensures First(source, i) + source[i].size <= First(source, j)
    ensures First(source, j) + source[j].size <= Total(source)
  {
    TakenMonotone(source, source[i].imported, i + 1, if source[i].imported == source[j].imported then j else |source|);
    TakenMonotone(source, source[j].imported, j + 1, |source|);
  }

  /** The index `p` among those taken by the first `k` definitions of a kind. */
  lemma {:induction false} TakenCovers(source: seq<Definition>, imported: bool, k: nat, p: nat) returns (i: nat)
    requires k <= |source| && p < Taken(source, imported, k)
    ensures i < k && source[i].imported == imported
    ensures Taken(source, imported, i) <= p < Taken(source, imported, i) + source[i].size
    decreases k
  {
    if p < Taken(source, imported, k - 1) {
      i := TakenCovers(source, imported, k - 1, p);
    } else {
      i := k - 1;
    }
  }

  /** Every index below the total belongs to exactly one definition. */
  lemma Partition(source: seq<Definition>, p: nat)
    requires p < Total(source)
    ensures exists i :: 0 <= i < |source| && Owns(source, i, p)
    ensures forall i, j :: 0 <= i < |source| && 0 <= j < |source| && Owns(source, i, p) && Owns(source, j, p) ==> i == j
  {
    var imports := Taken(source, true, |source|);
    if p < imports {
      var i := TakenCovers(source, true, |source|, p);
      assert Owns(source, i, p);
    } else {
      var i := TakenCovers(source, false, |source|, p - imports);
      assert Owns(source, i, p);
    }
    forall i, j | 0 <= i < |source| && 0 <= j < |source| && Owns(source, i, p) && Owns(source, j, p) ensures i == j {
      if i != j {
        Apart(source, i, j, p);
      }
    }
  }

  lemma Apart(source: seq<Definition>, i: nat, j: nat, p: nat)
    requires i < |source| && j < |source| && i != j
    ensures !(Owns(source, i, p) && Owns(source, j, p))
  {
    if (source[i].imported && !source[j].imported) || (source[i].imported == source[j].imported && i < j) {
      Ordered(source, i, j);
    } else {
      Ordered(source, j, i);
    }
  }

  ghost predicate Owns(source: seq<Definition>, i: nat, p: nat)
    requires i < |source|
  {
    First(source, i) <= p < First(source, i) + source[i].size
  }

  lemma IndexBelow(source: seq<Definition>, i: nat)
    requires i < |source|
    ensures First(source, i) + source[i].size <= Total(source)
  {
    TakenMonotone(source, source[i].imported, i + 1, |source|);
  }

  ghost predicate IsIndex(indexes: map<string, nat>, p: nat) {
    exists n :: n in indexes && indexes[n] == p
  }

  /** Functions, tags, tables and memories: the map is one-to-one onto the indexes below their number. */
  lemma Bijection(source: seq<Definition>, indexes: map<string, nat>)
    requires OneEach(source) && Assigned(source, indexes)
    ensures forall n :: n in indexes ==> indexes[n] < |source|
    ensures forall m, n :: m in indexes && n in indexes && m != n ==> indexes[m] != indexes[n]
    ensures forall p: nat :: p < |source| ==> IsIndex(indexes, p)
  {
    hide First, Taken;
    TotalOneEach(source);
    forall n | n in indexes ensures indexes[n] < |source| {
      var i :| 0 <= i < |source| && source[i].name == n;
      IndexBelow(source, i);
    }
    forall m, n | m in indexes && n in indexes && m != n ensures indexes[m] != indexes[n] {
      var i :| 0 <= i < |source| && source[i].name == m;
      var j :| 0 <= j < |source| && source[j].name == n;
      Apart(source, i, j, indexes[m]);
    }
    forall p: nat | p < |source| ensures IsIndex(indexes, p) {
      Partition(source, p);
      var i :| 0 <= i < |source| && Owns(source, i, p);
      assert indexes[source[i].name] == p;
    }
  }
}
