/**
 The mutable trie of scripts/gen-s-parser.py: the class `Node`, whose `do_insert`
 splits edges and grows children in place.
 */
module InstructionTrie {
  import opened Wrappers
  import opened Trie

  class Node {
    // set together, when a name ends at this node
    var expr: Option<string>
    var inst: Option<string>
    var children: map<string, Node>

    constructor (expr: Option<string>, children: map<string, Node>, inst: Option<string>)
      ensures this.expr == expr && this.children == children && this.inst == inst
    {
      this.expr, this.children, this.inst := expr, children, inst;
    }

    static method CommonPrefixOf(a: string, b: string) returns (prefix: string)
      ensures prefix == CommonPrefix(a, b)
    {
      prefix := [];
      var x, y := a, b;
      while x != "" && y != "" && x[0] == y[0]
        invariant prefix + CommonPrefix(x, y) == CommonPrefix(a, b)
        decreases |x|
      {
        prefix := prefix + [x[0]];
        x, y := x[1..], y[1..];
      }
    }

    /** Search the children for a key that shares a prefix with `inst`. */
    method FindKey(inst: string) returns (prefix: string, key: Option<string>)
      ensures key.None? ==> forall k :: k in children ==> CommonPrefix(inst, k) == ""
      ensures key.Some? ==> key.value in children && prefix == CommonPrefix(inst, key.value) != ""
    {
      prefix, key := "", None;
      var todo := children.Keys;
      while todo != {}
        invariant todo <= children.Keys
        invariant forall k :: k in children && k !in todo ==> CommonPrefix(inst, k) == ""
      {
        var k :| k in todo;
        todo := todo - {k};
        prefix := CommonPrefixOf(inst, k);
        if prefix != "" {
          key := Some(k);
          break;
        }
      }
    }

    /** Insert `inst`, the rest of the name `fullInst`, below this node. */
    method DoInsert(fullInst: string, inst: string, expr: string, ghost s: Shape) returns (ok: bool, ghost s': Shape)
      requires s.node == this && IsTree(s) && Stored(s) && Compressed(Abs(s))
      modifies Nodes(s)
      ensures s'.node == this && IsTree(s') && Stored(s')
      ensures forall n :: n in Nodes(s') && n !in Nodes(s) ==> fresh(n)
      ensures ok <==> Lookup(Abs(s), inst).None?
      ensures Abs(s') == if ok then Insert(Abs(s), inst, Entry(fullInst, expr)) else Abs(s)
      decreases |inst|, 1
    {
      hide Nodes, IsTree, Stored, Abs, Lookup, Insert, Compressed, Below;
      assert allocated(Nodes(s));
      StoredParts(s);
      AbsParts(s);
      CompressedEdges(Abs(s));
      ghost var e := Entry(fullInst, expr);
      if inst == "" {
        InsertHere(Abs(s), e);
        if this.expr.Some? {
          return false, s;
        }
        s' := s.(entry := Some(e));
        SetEntry(s, Some(e));
        forall k | k in s.children ensures this !in Nodes(s.children[k]) { TreeChild(s, k); }
        this.expr := Some(expr);
        this.inst := Some(fullInst);
        StoredIntro(s');
        return true, s';
      }
      var prefix, found := FindKey(inst);
      match found {
        case None =>
          // no child starts like it: the whole of it labels a new edge
          InsertLeaf(Abs(s), inst, e);
          ok := true;
          s' := AddLeaf(fullInst, inst, expr, s);
        case Some(k) =>
          ok, s' := InsertUnder(fullInst, inst, k, prefix, expr, s);
      }
    }

    /** Insert below the part `prefix` of the edge `k`, splitting the edge if there is more of it. */
    method InsertUnder(fullInst: string, inst: string, k: string, prefix: string, expr: string, ghost s: Shape)
      returns (ok: bool, ghost s': Shape)
      requires s.node == this && IsTree(s) && Stored(s) && Compressed(Abs(s))
      requires k in children && prefix == CommonPrefix(inst, k) != ""
      modifies Nodes(s)
      ensures s'.node == this && IsTree(s') && Stored(s')
      ensures forall n :: n in Nodes(s') && n !in Nodes(s) ==> fresh(n)
      ensures ok <==> Lookup(Abs(s), inst).None?
      ensures Abs(s') == if ok then Insert(Abs(s), inst, Entry(fullInst, expr)) else Abs(s)
      decreases |inst|, 0
    {
      hide Nodes, IsTree, Stored, Abs, Lookup, Insert, Compressed, Below;
      assert allocated(Nodes(s));
      StoredParts(s);
      AbsParts(s);
      CompressedEdges(Abs(s));
      var key := k;
      ghost var c, s1 := s.children[k], s;
      BelowParts(Abs(s), k, prefix, inst[|prefix|..]);
      if prefix != key {
        // the common part becomes an edge of its own, to a node in between
        c, s1 := SplitEdge(key, prefix, s);
        key := prefix;
      }
      assert s1 == SetChild(s, k, prefix, c);
      TreeChild(s1, key);
      assert inst == prefix + inst[|prefix|..];
      ghost var c';
      ok, c' := InsertBelow(fullInst, inst[|key|..], key, expr, s1);
      s' := SetChild(s1, key, key, c');
      assert s' == SetChild(s, k, prefix, c');
      InsertVia(Abs(s), inst, Entry(fullInst, expr), k);
      SetChildAbs(s, k, prefix, c');
      assert !ok ==> Abs(s').children == Abs(s).children;
    }

    /** Insert below the child `key`. */
    method InsertBelow(fullInst: string, inst: string, key: string, expr: string, ghost s: Shape)
      returns (ok: bool, ghost c: Shape)
      requires s.node == this && IsTree(s) && Stored(s) && key in s.children
      requires Compressed(Abs(s.children[key]))
      modifies Nodes(s.children[key])
      ensures IsTree(SetChild(s, key, key, c)) && Stored(SetChild(s, key, key, c))
      ensures forall n :: n in Nodes(SetChild(s, key, key, c)) && n !in Nodes(s) ==> fresh(n)
      ensures ok <==> Lookup(Abs(s.children[key]), inst).None?
      ensures Abs(c) == if ok then Insert(Abs(s.children[key]), inst, Entry(fullInst, expr)) else Abs(s.children[key])
      decreases |inst|, 2
    {
      hide Nodes, IsTree, Stored, Abs, Lookup, Insert, Compressed;
      StoredParts(s);
      assert allocated(Nodes(s));
      forall l | l in s.children
        ensures this !in Nodes(s.children[l]) && IsTree(s.children[l]) && Nodes(s.children[l]) <= Nodes(s)
        ensures l != key ==> Nodes(s.children[l]) !! Nodes(s.children[key])
      {
        TreeChild(s, l);
      }
      ok, c := children[key].DoInsert(fullInst, inst, expr, s.children[key]);
      forall l | l in s.children && l != key ensures Nodes(s.children[l]) !! Nodes(c) {
        TreeChild(s, l);
      }
      SetChildNodes(s, key, key, c);
      SetChildTree(s, key, key, c);
      StoredSetChild(s, key, key, c);
    }

    method AddLeaf(fullInst: string, inst: string, expr: string, ghost s: Shape) returns (ghost s': Shape)
      requires s.node == this && IsTree(s) && Stored(s) && inst !in s.children
      modifies this
      ensures s'.node == this && IsTree(s') && Stored(s')
      ensures forall n :: n in Nodes(s') && n !in Nodes(s) ==> fresh(n)
      ensures Abs(s') == Abs(s).(children := Abs(s).children[inst := Trie(Some(Entry(fullInst, expr)), map[])])
    {
      hide Nodes, IsTree, Stored, Abs;
      StoredParts(s);
      assert allocated(Nodes(s));
      forall l | l in s.children ensures this !in Nodes(s.children[l]) && Nodes(s.children[l]) <= Nodes(s) {
        TreeChild(s, l);
      }
      var leaf := new Node(Some(expr), map[], Some(fullInst));
      ghost var c := Shape(leaf, Some(Entry(fullInst, expr)), map[]);
      LeafShape(c);
      children := children[inst := leaf];
      s' := SetChild(s, inst, inst, c);
      SetChildNodes(s, inst, inst, c);
      SetChildTree(s, inst, inst, c);
      assert Abs(s).children - {inst} == Abs(s).children by { AbsParts(s); }
      SetChildAbs(s, inst, inst, c);
      StoredSetChild(s, inst, inst, c);
    }

    /** Move everything after the prefix `p` of the edge `k` to a new node. */
    method SplitEdge(k: string, p: string, ghost s: Shape) returns (ghost c: Shape, ghost s': Shape)
      requires s.node == this && IsTree(s) && Stored(s) && DistinctEdges(s.children)
      requires k in s.children && p != "" && p < k
      modifies this
      ensures s'.node == this && IsTree(s') && Stored(s')
      ensures forall n :: n in Nodes(s') && n !in Nodes(s) ==> fresh(n)
      ensures s' == SetChild(s, k, p, c) && Abs(c) == Below(Abs(s), k, p)
    {
      hide Nodes, IsTree, Stored, Abs;
      StoredParts(s);
      assert allocated(Nodes(s));
      ghost var below := s.children[k];
      forall l | l in s.children ensures this !in Nodes(s.children[l]) && Nodes(s.children[l]) <= Nodes(s) {
        TreeChild(s, l);
      }
      var mid := new Node(None, map[k[|p|..] := children[k]], None);
      c := Shape(mid, None, map[k[|p|..] := below]);
      SplitTree(s, k, p, mid);
      StoredIntro(c);
      children := (children - {k})[p := mid];
      StoredSetChild(s, k, p, c);
      s' := SetChild(s, k, p, c);
    }
  }

  // ---- The heap shape of a trie -------------------------------------------------

  /** Which object stands at each place of a trie. */
  datatype Shape = Shape(node: Node, entry: Option<Entry>, children: map<string, Shape>)

  ghost function Nodes(s: Shape): set<Node> {
    {s.node} + set k, n | k in s.children && n in Nodes(s.children[k]) :: n
  }

  /** No node is shared. */
  ghost predicate IsTree(s: Shape) {
    && (forall k :: k in s.children ==> s.node !in Nodes(s.children[k]) && IsTree(s.children[k]))
    && (forall k, l :: k in s.children && l in s.children && k != l
          ==> Nodes(s.children[k]) !! Nodes(s.children[l]))
  }

  /** The objects hold what the shape says. */
  ghost predicate Stored(s: Shape)
    reads Nodes(s)
  {
    && s.entry == EntryOf(s.node.expr, s.node.inst)
    && (s.node.expr.Some? <==> s.node.inst.Some?)
    && s.node.children.Keys == s.children.Keys
    && forall k :: k in s.children ==> s.node.children[k] == s.children[k].node && Stored(s.children[k])
  }

  ghost function EntryOf(expr: Option<string>, inst: Option<string>): Option<Entry> {
    if expr.Some? && inst.Some? then Some(Entry(inst.value, expr.value)) else None
  }

  ghost function Abs(s: Shape): Trie {
    Trie(s.entry, map k | k in s.children :: Abs(s.children[k]))
  }

  lemma {:induction false} NodesOfChild(s: Shape, k: string)
    requires k in s.children
    ensures Nodes(s.children[k]) <= Nodes(s)
  {
  }

  lemma {:induction false} SingleChild(n: Node, k: string, c: Shape)
    requires IsTree(c) && n !in Nodes(c)
    ensures var s := Shape(n, None, map[k := c]);
            IsTree(s) && Nodes(s) == {n} + Nodes(c) && Abs(s) == Trie(None, map[k := Abs(c)])
  {
    var s := Shape(n, None, map[k := c]);
    assert s.children[k] == c;
    assert Abs(s).children == map[k := Abs(c)];
  }

  /** The shape with the child `o` removed and `c` put under the key `k`. */
  ghost function SetChild(s: Shape, o: string, k: string, c: Shape): Shape {
    s.(children := (s.children - {o})[k := c])
  }

  lemma {:induction false} SetChildNodes(s: Shape, o: string, k: string, c: Shape)
    ensures Nodes(SetChild(s, o, k, c)) <= Nodes(s) + Nodes(c)
  {
    var s' := SetChild(s, o, k, c);
    forall n | n in Nodes(s') ensures n in Nodes(s) + Nodes(c) {
      if n != s.node {
        var l :| l in s'.children && n in Nodes(s'.children[l]);
        assert l != k ==> s'.children[l] == s.children[l];
      }
    }
  }

  lemma {:induction false} SetChildAbs(s: Shape, o: string, k: string, c: Shape)
    ensures Abs(SetChild(s, o, k, c)) == Abs(s).(children := (Abs(s).children - {o})[k := Abs(c)])
  {
    assert Abs(SetChild(s, o, k, c)).children == (Abs(s).children - {o})[k := Abs(c)];
  }

  lemma {:induction false} SetChildTree(s: Shape, o: string, k: string, c: Shape)
    requires IsTree(s) && IsTree(c) && s.node !in Nodes(c)
    requires forall l :: l in s.children && l != o ==> l != k && Nodes(s.children[l]) !! Nodes(c)
    ensures IsTree(SetChild(s, o, k, c))
  {
  }

  lemma {:induction false} SplitTree(s: Shape, k: string, p: string, mid: Node)
    requires IsTree(s) && DistinctEdges(s.children) && k in s.children && p != "" && p < k
    requires mid !in Nodes(s)
    ensures var c := Shape(mid, None, map[k[|p|..] := s.children[k]]);
            && IsTree(SetChild(s, k, p, c)) && IsTree(c) && s.node !in Nodes(c)
            && Nodes(SetChild(s, k, p, c)) <= Nodes(s) + {mid}
            && Abs(c) == Below(Abs(s), k, p)
  {
    var c := Shape(mid, None, map[k[|p|..] := s.children[k]]);
    NodesOfChild(s, k);
    SingleChild(mid, k[|p|..], s.children[k]);
    forall l | l in s.children && l != k ensures l != p && Nodes(s.children[l]) !! Nodes(c) {
      NodesOfChild(s, l);
    }
    SetChildNodes(s, k, p, c);
    SetChildTree(s, k, p, c);
  }

  lemma {:induction false} TreeChild(s: Shape, k: string)
    requires IsTree(s) && k in s.children
    ensures IsTree(s.children[k]) && s.node !in Nodes(s.children[k]) && Nodes(s.children[k]) <= Nodes(s)
    ensures s.node in Nodes(s)
    ensures forall l :: l in s.children && l != k ==> Nodes(s.children[l]) !! Nodes(s.children[k])
  {
  }

  lemma {:induction false} StoredParts(s: Shape)
    requires Stored(s)
    ensures s.node in Nodes(s)
    ensures s.entry == EntryOf(s.node.expr, s.node.inst) && (s.node.expr.Some? <==> s.node.inst.Some?)
    ensures s.node.children.Keys == s.children.Keys
    ensures forall k :: k in s.children ==> s.node.children[k] == s.children[k].node && Stored(s.children[k])
  {
  }

  lemma {:induction false} LeafShape(s: Shape)
    requires s.children == map[]
    ensures IsTree(s) && Nodes(s) == {s.node} && Abs(s) == Trie(s.entry, map[])
    ensures (s.entry == EntryOf(s.node.expr, s.node.inst) && (s.node.expr.Some? <==> s.node.inst.Some?)
             && s.node.children == map[]) ==> Stored(s)
  {
  }

  lemma {:induction false} AbsParts(s: Shape)
    ensures Abs(s).entry == s.entry && Abs(s).children.Keys == s.children.Keys
    ensures forall k :: k in s.children ==> Abs(s).children[k] == Abs(s.children[k])
  {
  }

  lemma {:induction false} SetEntry(s: Shape, entry: Option<Entry>)
    requires IsTree(s)
    ensures var s' := s.(entry := entry);
            IsTree(s') && Nodes(s') == Nodes(s) && Abs(s') == Abs(s).(entry := entry)
  {
  }

  lemma {:induction false} StoredIntro(s: Shape)
    requires s.entry == EntryOf(s.node.expr, s.node.inst) && (s.node.expr.Some? <==> s.node.inst.Some?)
    requires s.node.children.Keys == s.children.Keys
    requires forall k :: k in s.children ==> s.node.children[k] == s.children[k].node && Stored(s.children[k])
    ensures Stored(s)
  {
  }

  /** Redirecting one edge of a stored trie. */
  lemma {:induction false} StoredSetChild(s: Shape, o: string, k: string, c: Shape)
    requires s.entry == EntryOf(s.node.expr, s.node.inst) && (s.node.expr.Some? <==> s.node.inst.Some?)
    requires s.node.children.Keys == s.children.Keys - {o} + {k}
    requires k in s.node.children && s.node.children[k] == c.node && Stored(c)
    requires forall l :: l in s.children && l != o && l != k ==>
               s.node.children[l] == s.children[l].node && Stored(s.children[l])
    ensures Stored(SetChild(s, o, k, c))
  {
  }
}
