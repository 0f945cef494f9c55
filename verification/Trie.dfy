/**
 The value that a `Node` of scripts/gen-s-parser.py represents, what it means for
 such a trie to be compressed, and what inserting a name does to the names it holds.
 */
module Trie {
  import opened Wrappers

  /** A full instruction name with the expression to run for it. */
  datatype Entry = Entry(inst: string, expr: string)

  datatype Trie = Trie(entry: Option<Entry>, children: map<string, Trie>)

  /** The longest common prefix of two strings. */
  function CommonPrefix(a: string, b: string): (p: string)
    ensures p <= a && p <= b
    ensures |p| < |a| && |p| < |b| ==> a[|p|] != b[|p|]
  {
    if a != "" && b != "" && a[0] == b[0] then [a[0]] + CommonPrefix(a[1..], b[1..]) else ""
  }

  // ---- Invariants -------------------------------------------------------------

  /** Edge keys are non-empty and siblings differ in their first character. */
  ghost predicate DistinctEdges<T>(children: map<string, T>) {
    && (forall k :: k in children ==> k != "")
    && (forall k, l :: k in children && l in children && k[0] == l[0] ==> k == l)
  }

  /** The node ends a name, or at least two names part here. */
  ghost predicate Branches(t: Trie) {
    t.entry.Some? || exists k, l :: k in t.children && l in t.children && k != l
  }

  /** Everything below the root is a compressed trie. The root itself need not branch. */
  ghost predicate Compressed(t: Trie) {
    && DistinctEdges(t.children)
    && forall k :: k in t.children ==> Branches(t.children[k]) && Compressed(t.children[k])
  }

  // ---- Meaning ----------------------------------------------------------------

  /** The edge that a search for `s` follows. */
  ghost function Edge(children: map<string, Trie>, s: string): (e: Option<string>)
    ensures e.Some? ==> e.value in children && e.value != "" && e.value <= s
    ensures e.None? ==> forall k :: k in children && k != "" ==> !(k <= s)
  {
    if exists k :: k in children && k != "" && k <= s then
      var k :| k in children && k != "" && k <= s;
      Some(k)
    else
      None
  }

  /** The entry stored under the name `s`. */
  ghost function Lookup(t: Trie, s: string): Option<Entry>
    decreases |s|
  {
    if s == "" then t.entry
    else match Edge(t.children, s)
      case None => None
      case Some(k) => Lookup(t.children[k], s[|k|..])
  }

  /** With distinct edges, any key that is a prefix of `k + s` is the edge followed. */
  lemma LookupThrough(t: Trie, k: string, s: string)
    requires DistinctEdges(t.children) && k in t.children
    ensures Lookup(t, k + s) == Lookup(t.children[k], s)
  {
    var w := k + s;
    assert k <= w && w[|k|..] == s && w[0] == k[0];
    var e := Edge(t.children, w).value;
    assert e[0] == w[0];
  }

  /** A name that is found below a node starts with one of its edges. */
  lemma LookupEdge(t: Trie, s: string) returns (k: string)
    requires DistinctEdges(t.children) && s != "" && Lookup(t, s).Some?
    ensures k in t.children && k <= s && k[0] == s[0]
    ensures Lookup(t, s) == Lookup(t.children[k], s[|k|..])
  {
    k := Edge(t.children, s).value;
  }

  /** A branching node holds a name that does not start with `c`. */
  lemma {:induction false} HoldsOther(t: Trie, c: char) returns (w: string)
    requires Branches(t) && Compressed(t)
    ensures Lookup(t, w).Some? && (w == "" || w[0] != c)
    decreases t
  {
    if t.entry.Some? {
      w := "";
    } else {
      var k, l :| k in t.children && l in t.children && k != l;
      var m := if k[0] != c then k else l;
      var v := HoldsOther(t.children[m], c);
      w := m + v;
      LookupThrough(t, m, v);
    }
  }

  // ---- Canonicity -------------------------------------------------------------

  ghost predicate SameNames(t: Trie, u: Trie) {
    forall s :: Lookup(t, s) == Lookup(u, s)
  }

  /** An edge of one trie is not a proper prefix of an edge of the other. */
  lemma EdgeNotShorter(t: Trie, u: Trie, k: string, l: string)
    requires Compressed(t) && Compressed(u) && SameNames(t, u)
    requires k in t.children && l in u.children && l[0] == k[0]
    ensures |l| <= |k|
  {
    var v := HoldsOther(t.children[k], if |k| < |l| then l[|k|] else '\0');
    LookupThrough(t, k, v);
    var m := LookupEdge(u, k + v);
    assert m == l;
    assert v != "" ==> (k + v)[|k|] == v[0];
  }

  /** Tries that hold the same names have the same edges. */
  lemma SameEdge(t: Trie, u: Trie, k: string)
    requires Compressed(t) && Compressed(u) && SameNames(t, u) && k in t.children
    ensures k in u.children
  {
    var w := HoldsOther(t.children[k], '\0');
    LookupThrough(t, k, w);
    var l := LookupEdge(u, k + w);
    EdgeNotShorter(t, u, k, l);
    EdgeNotShorter(u, t, l, k);
    assert k == (k + w)[..|k|] && l == (k + w)[..|l|];
  }

  /** A compressed trie is determined by the names it holds. */
  lemma {:induction false} Canonical(t: Trie, u: Trie)
    requires Compressed(t) && Compressed(u) && SameNames(t, u)
    ensures t == u
    decreases t
  {
    assert t.entry == Lookup(t, "") == Lookup(u, "") == u.entry;
    forall k | k in t.children ensures k in u.children && t.children[k] == u.children[k] {
      SameEdge(t, u, k);
      forall s ensures Lookup(t.children[k], s) == Lookup(u.children[k], s) {
        LookupThrough(t, k, s);
        LookupThrough(u, k, s);
      }
      Canonical(t.children[k], u.children[k]);
    }
    forall k | k in u.children ensures k in t.children {
      SameEdge(u, t, k);
    }
    assert t.children == u.children;
  }

  // ---- Insertion --------------------------------------------------------------

  /** The sibling that shares a non-empty prefix with `inst`. */
  ghost function Sibling(children: map<string, Trie>, inst: string): (e: Option<string>)
    ensures e.Some? ==> e.value in children && CommonPrefix(inst, e.value) != ""
    ensures e.None? ==> forall k :: k in children ==> CommonPrefix(inst, k) == ""
  {
    if exists k :: k in children && CommonPrefix(inst, k) != "" then
      var k :| k in children && CommonPrefix(inst, k) != "";
      Some(k)
    else
      None
  }

  /** The node that the rest of `inst` is inserted into holds what the edge `k` led to. */
  ghost function Below(t: Trie, k: string, p: string): Trie
    requires k in t.children && p <= k
  {
    if p == k then t.children[k] else Trie(None, map[k[|p|..] := t.children[k]])
  }

  /** The trie after `do_insert` of a name that it does not hold. */
  ghost function Insert(t: Trie, inst: string, e: Entry): Trie
    decreases |inst|
  {
    if inst == "" then t.(entry := Some(e))
    else match Sibling(t.children, inst)
      case None => t.(children := t.children[inst := Trie(Some(e), map[])])
      case Some(k) =>
        var p := CommonPrefix(inst, k);
        t.(children := (t.children - {k})[p := Insert(Below(t, k, p), inst[|p|..], e)])
  }

  /** With distinct edges, any sibling that shares a prefix is the one inserted below. */
  lemma InsertVia(t: Trie, inst: string, e: Entry, k: string)
    requires DistinctEdges(t.children) && k in t.children && CommonPrefix(inst, k) != ""
    ensures var p := CommonPrefix(inst, k);
            && Insert(t, inst, e) == t.(children := (t.children - {k})[p := Insert(Below(t, k, p), inst[|p|..], e)])
            && (Lookup(t, inst).Some? ==> p == k)
  {
    var l := Sibling(t.children, inst).value;
    assert l[0] == CommonPrefix(inst, l)[0] == inst[0];
    assert k[0] == CommonPrefix(inst, k)[0] == inst[0];
    assert l == k;
  }

  lemma CompressedEdges(t: Trie)
    requires Compressed(t)
    ensures DistinctEdges(t.children)
  {
  }

  lemma InsertHere(t: Trie, e: Entry)
    ensures Lookup(t, "") == t.entry && Insert(t, "", e) == t.(entry := Some(e))
  {
  }

  lemma InsertLeaf(t: Trie, inst: string, e: Entry)
    requires DistinctEdges(t.children) && inst != ""
    requires forall k :: k in t.children ==> CommonPrefix(inst, k) == ""
    ensures Insert(t, inst, e) == t.(children := t.children[inst := Trie(Some(e), map[])])
    ensures Lookup(t, inst).None? && inst !in t.children
  {
    forall k | k in t.children ensures k[0] != inst[0] {
      assert CommonPrefix(inst, k) == "";
    }
  }

  lemma PrefixCancel(p: string, r: string, s: string)
    ensures p + r <= p + s <==> r <= s
  {
    if r <= s {
      assert s == r + s[|r|..];
      assert p + s == p + r + s[|r|..];
    } else if |r| <= |s| {
      var i :| 0 <= i < |r| && r[i] != s[i];
      assert (p + r)[|p| + i] != (p + s)[|p| + i];
    }
  }

  /** A search depends only on the edges that are prefixes of the name. */
  lemma LookupLocal(t: Trie, u: Trie, s: string)
    requires DistinctEdges(t.children) && DistinctEdges(u.children) && s != ""
    requires forall k :: k <= s ==> (k in t.children <==> k in u.children)
    requires forall k :: k <= s && k in t.children ==> t.children[k] == u.children[k]
    ensures Lookup(t, s) == Lookup(u, s)
  {
    match Edge(t.children, s)
    case None =>
    case Some(k) =>
      assert s == k + s[|k|..];
      LookupThrough(u, k, s[|k|..]);
  }

  /** Putting an intermediate node on an edge does not change the names held. */
  lemma SplitKeepsNames(t: Trie, k: string, p: string, s: string)
    requires DistinctEdges(t.children) && k in t.children && p != "" && p < k
    ensures DistinctEdges(map[k[|p|..] := t.children[k]])
    ensures Lookup(Trie(None, map[k[|p|..] := t.children[k]]), s) == Lookup(t, p + s)
  {
    var r := k[|p|..];
    var mid := Trie(None, map[r := t.children[k]]);
    assert k == p + r;
    PrefixCancel(p, r, s);
    if s != "" && r <= s {
      var v := s[|r|..];
      assert s == r + v && p + s == k + v;
      LookupThrough(mid, r, v);
      LookupThrough(t, k, v);
    } else {
      forall e | e in t.children && e != "" ensures !(e <= p + s) {
        assert (p + s)[0] == k[0];
        assert e[0] == k[0] ==> e == k;
      }
    }
  }

  lemma BelowKeepsNames(t: Trie, k: string, p: string, s: string)
    requires Compressed(t) && k in t.children && p != "" && p <= k
    ensures Compressed(Below(t, k, p)) && Lookup(Below(t, k, p), s) == Lookup(t, p + s)
  {
    if p == k {
      LookupThrough(t, k, s);
    } else {
      SplitKeepsNames(t, k, p, s);
    }
  }

  lemma BelowParts(t: Trie, k: string, p: string, s: string)
    requires Compressed(t) && k in t.children && p != "" && p <= k
    ensures Compressed(Below(t, k, p)) && Lookup(Below(t, k, p), s) == Lookup(t, p + s)
    ensures p == k ==> Below(t, k, p) == t.children[k]
  {
    BelowKeepsNames(t, k, p, s);
  }

  /** Replacing the edge `k` by a prefix of it that is not empty keeps the edges distinct. */
  lemma ReplaceEdge(t: Trie, k: string, p: string, u: Trie)
    requires DistinctEdges(t.children) && k in t.children && p != "" && p <= k
    ensures DistinctEdges((t.children - {k})[p := u])
  {
  }

  lemma NoSibling(t: Trie, inst: string, u: Trie)
    requires DistinctEdges(t.children) && inst != "" && Sibling(t.children, inst).None?
    ensures DistinctEdges(t.children[inst := u])
    ensures forall k :: k in t.children ==> k[0] != inst[0]
  {
    forall k | k in t.children ensures k[0] != inst[0] {
      assert CommonPrefix(inst, k) == "";
    }
  }

  /** The name just inserted is found, and no other name is affected. */
  lemma {:induction false} InsertLookup(t: Trie, inst: string, e: Entry, s: string)
    requires Compressed(t)
    ensures Lookup(Insert(t, inst, e), s) == if s == inst then Some(e) else Lookup(t, s)
    decreases |inst|
  {
    var u := Insert(t, inst, e);
    if inst == "" || s == "" {
    } else {
      match Sibling(t.children, inst)
      case None => InsertLeafLookup(t, inst, e, s);
      case Some(k) =>
        var p := CommonPrefix(inst, k);
        var rest := inst[|p|..];
        ReplaceEdge(t, k, p, Insert(Below(t, k, p), rest, e));
        if p <= s {
          var v := s[|p|..];
          assert s == p + v && inst == p + rest;
          LookupThrough(u, p, v);
          BelowKeepsNames(t, k, p, v);
          InsertLookup(Below(t, k, p), rest, e, v);
        } else {
          LookupLocal(t, u, s);
        }
    }
  }

  lemma InsertLeafLookup(t: Trie, inst: string, e: Entry, s: string)
    requires Compressed(t) && inst != "" && s != "" && Sibling(t.children, inst).None?
    ensures Lookup(Insert(t, inst, e), s) == if s == inst then Some(e) else Lookup(t, s)
  {
    var leaf := Trie(Some(e), map[]);
    var u := Insert(t, inst, e);
    NoSibling(t, inst, leaf);
    if inst <= s {
      assert s == inst + s[|inst|..] && s[0] == inst[0];
      LookupThrough(u, inst, s[|inst|..]);
      assert Edge(t.children, s).None?;
    } else {
      LookupLocal(t, u, s);
    }
  }

  /** The node put on a split edge branches once the rest of the name is inserted. */
  lemma SplitBranches(t: Trie, k: string, inst: string, e: Entry)
    requires k in t.children && CommonPrefix(inst, k) != k
    ensures var p := CommonPrefix(inst, k);
            Branches(Insert(Below(t, k, p), inst[|p|..], e))
  {
    var p := CommonPrefix(inst, k);
    var rest, r := inst[|p|..], k[|p|..];
    var mid := Below(t, k, p);
    if rest != "" {
      assert rest[0] == inst[|p|] != k[|p|] == r[0];
      assert CommonPrefix(rest, r) == "";
      assert Sibling(mid.children, rest).None?;
      var u := Insert(mid, rest, e);
      assert rest in u.children && r in u.children;
    }
  }

  /** Replacing an edge by one to a branching node keeps the trie compressed. */
  lemma ReplaceCompressed(t: Trie, k: string, p: string, u: Trie)
    requires Compressed(t) && k in t.children && p != "" && p <= k && Branches(u) && Compressed(u)
    ensures var t' := t.(children := (t.children - {k})[p := u]);
            Compressed(t') && (Branches(t) ==> Branches(t'))
  {
    ReplaceEdge(t, k, p, u);
    var t' := t.(children := (t.children - {k})[p := u]);
    if l, m :| l in t.children && m in t.children && l != m {
      var other := if l == k then m else l;
      assert other[0] != k[0] == p[0];
      assert other in t'.children && p in t'.children;
    }
  }

  lemma InsertLeafCompressed(t: Trie, inst: string, e: Entry)
    requires Compressed(t) && inst != "" && Sibling(t.children, inst).None?
    ensures Compressed(Insert(t, inst, e))
    ensures Branches(t) ==> Branches(Insert(t, inst, e))
  {
    var u := Insert(t, inst, e);
    NoSibling(t, inst, Trie(Some(e), map[]));
    if k, l :| k in t.children && l in t.children && k != l {
      assert k in u.children && l in u.children;
    }
  }

  /** Inserting a new name keeps the trie compressed, and a branching node branching. */
  lemma {:induction false} InsertCompressed(t: Trie, inst: string, e: Entry)
    requires Compressed(t) && Lookup(t, inst).None?
    ensures Compressed(Insert(t, inst, e))
    ensures Branches(t) ==> Branches(Insert(t, inst, e))
    decreases |inst|
  {
    hide Lookup, Below;
    if inst != "" {
      match Sibling(t.children, inst)
      case None => InsertLeafCompressed(t, inst, e);
      case Some(k) =>
        var p := CommonPrefix(inst, k);
        var rest := inst[|p|..];
        assert inst == p + rest;
        BelowParts(t, k, p, rest);
        InsertCompressed(Below(t, k, p), rest, e);
        if p != k {
          SplitBranches(t, k, inst, e);
        }
        ReplaceCompressed(t, k, p, Insert(Below(t, k, p), rest, e));
    }
  }
}
