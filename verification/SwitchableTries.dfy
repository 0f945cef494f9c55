/**
 When the switches of a trie look at the bytes they mean to: positions are counted in characters
 and the buffer holds bytes, so everything up to a switch must be ASCII, and every label a byte.
 What this says of the trie is proved equal to what it says of the names.
 */
module SwitchableTries {
  import opened Trie
  import opened TrieCompiler
  import opened Utf8

  /** Edges that lead to another switch are ASCII, and every edge starts with a character that can be a label. */
  ghost predicate Switchable(t: Trie) {
    forall k :: k in t.children && k != "" ==>
      && Label(k[0]).Some?
      && (t.children[k].children != map[] ==> Ascii(k) && Switchable(t.children[k]))
  }

  /** `a` is ASCII up to where it parts from `b`, and there it goes on with a label, if it goes on. */
  predicate PartsWell(a: string, b: string) {
    var p := |CommonPrefix(a, b)|;
    Ascii(a[..p]) && (p < |a| ==> Label(a[p]).Some?)
  }

  ghost predicate NamesPart(t: Trie) {
    forall s, u :: Lookup(t, s).Some? && Lookup(t, u).Some? && s != u ==> PartsWell(s, u)
  }

  ghost predicate NamesStart(t: Trie) {
    forall s :: Lookup(t, s).Some? && s != "" ==> Label(s[0]).Some?
  }

  // ---- Names below an edge ------------------------------------------------------------------

  lemma {:induction false} PrefixThrough(k: string, s: string, u: string)
    ensures CommonPrefix(k + s, k + u) == k + CommonPrefix(s, u)
    decreases |k|
  {
    if k == "" {
      assert k + s == s && k + u == u;
    } else {
      assert (k + s)[1..] == k[1..] + s && (k + u)[1..] == k[1..] + u;
      PrefixThrough(k[1..], s, u);
    }
  }

  lemma PartsThrough(k: string, s: string, u: string)
    ensures PartsWell(k + s, k + u) <==> Ascii(k) && PartsWell(s, u)
  {
    hide Ascii, Label, CommonPrefix;
    PrefixThrough(k, s, u);
    var p := |CommonPrefix(s, u)|;
    assert |CommonPrefix(k + s, k + u)| == |k| + p;
    assert (k + s)[..|k| + p] == k + s[..p];
    AsciiConcat(k, s[..p]);
  }

  /** Below every edge there is a name. */
  lemma NameBelow(t: Trie, k: string) returns (w: string)
    requires Compressed(t) && k in t.children
    ensures k <= w && Lookup(t, w).Some?
  {
    var v := HoldsOther(t.children[k], '\0');
    LookupThrough(t, k, v);
    w := k + v;
  }

  /** Where a trie branches, two of its names part. */
  lemma NamesThatPart(t: Trie) returns (v: string, w: string)
    requires Branches(t) && Compressed(t) && t.children != map[]
    ensures Lookup(t, v).Some? && Lookup(t, w).Some? && v != w
    ensures v == "" || w == "" || v[0] != w[0]
  {
    hide Lookup, Compressed, Branches;
    v := HoldsOther(t, '\0');
    if v == "" {
      var k :| k in t.children;
      w := NameBelow(t, k);
      EdgeNotEmpty(t, k);
    } else {
      w := HoldsOther(t, v[0]);
    }
  }

  lemma EdgeNotEmpty(t: Trie, k: string)
    requires Compressed(t) && k in t.children
    ensures k != "" && Compressed(t.children[k]) && Branches(t.children[k]) && DistinctEdges(t.children)
  {
  }

  // ---- From the names to the trie -------------------------------------------------------------

  /** What holds of the names of a trie holds of those below an edge. */
  lemma NamesBelow(t: Trie, k: string)
    requires Compressed(t) && k in t.children && NamesPart(t) && t.children[k].children != map[]
    ensures Ascii(k) && NamesPart(t.children[k]) && NamesStart(t.children[k])
  {
    hide Lookup, Compressed, Branches, Ascii, PartsWell, Label;
    var child := t.children[k];
    EdgeNotEmpty(t, k);
    var v, w := NamesThatPart(child);
    LookupThrough(t, k, v);
    LookupThrough(t, k, w);
    assert k + v != k + w by { SameRest(k, v, w); }
    PartsThrough(k, v, w);
    forall s, u | Lookup(child, s).Some? && Lookup(child, u).Some? && s != u ensures PartsWell(s, u) {
      LookupThrough(t, k, s);
      LookupThrough(t, k, u);
      assert k + s != k + u by { SameRest(k, s, u); }
      PartsThrough(k, s, u);
    }
    forall s | Lookup(child, s).Some? && s != "" ensures Label(s[0]).Some? {
      var u := HoldsOther(child, s[0]);
      StartsApart(s, u);
    }
  }

  lemma SameRest(k: string, s: string, u: string)
    ensures k + s == k + u ==> s == u
  {
    assert s == (k + s)[|k|..] && u == (k + u)[|k|..];
  }

  lemma StartsApart(s: string, u: string)
    requires s != "" && (u == "" || u[0] != s[0])
    ensures s != u && (PartsWell(s, u) ==> Label(s[0]).Some?)
  {
  }

  lemma {:induction false} SwitchableIfNames(t: Trie)
    requires Compressed(t) && NamesStart(t) && NamesPart(t)
    ensures Switchable(t)
    decreases t
  {
    hide Lookup, Compressed, NamesPart, Ascii, Label;
    forall k | k in t.children && k != ""
      ensures Label(k[0]).Some?
      ensures t.children[k].children != map[] ==> Ascii(k) && Switchable(t.children[k])
    {
      var w := NameBelow(t, k);
      if t.children[k].children != map[] {
        NamesBelow(t, k);
        EdgeNotEmpty(t, k);
        SwitchableIfNames(t.children[k]);
      }
    }
  }

  // ---- From the trie to the names -------------------------------------------------------------

  lemma {:induction false} NamesIfSwitchable(t: Trie, s: string, u: string)
    requires Compressed(t) && Switchable(t) && Lookup(t, s).Some? && Lookup(t, u).Some? && s != u
    ensures PartsWell(s, u)
    decreases |s|
  {
    hide Lookup, Compressed, Ascii, Label;
    CompressedEdges(t);
    if s != "" {
      var k := LookupEdge(t, s);
      if u != "" {
        var l := LookupEdge(t, u);
        if k == l {
          var v, w := s[|k|..], u[|k|..];
          assert s == k + v && u == k + w;
          EdgeNotEmpty(t, k);
          LeafHoldsNothing(t.children[k], v);
          LeafHoldsNothing(t.children[k], w);
          NamesIfSwitchable(t.children[k], v, w);
          PartsThrough(k, v, w);
        } else {
          EdgesApart(t, k, l);
          PartAtOnce(s, u);
        }
      } else {
        PartAtOnce(s, u);
      }
    } else {
      PartAtOnce(s, u);
    }
  }

  lemma EdgesApart(t: Trie, k: string, l: string)
    requires DistinctEdges(t.children) && k in t.children && l in t.children && k != l
    ensures k != "" && l != "" && k[0] != l[0]
  {
  }

  lemma PartAtOnce(s: string, u: string)
    requires s == "" || u == "" || s[0] != u[0]
    requires s != "" ==> Label(s[0]).Some?
    ensures PartsWell(s, u)
  {
  }

  lemma LeafHoldsNothing(t: Trie, s: string)
    ensures t.children == map[] && s != "" ==> Lookup(t, s).None?
  {
  }

  /** A trie can be switched over exactly when its names start with labels and part well. */
  lemma SwitchableExactly(t: Trie)
    requires Compressed(t)
    ensures Switchable(t) <==> NamesStart(t) && NamesPart(t)
  {
    hide Lookup, Compressed, PartsWell, Label;
    if NamesStart(t) && NamesPart(t) {
      SwitchableIfNames(t);
    }
    if Switchable(t) {
      forall s, u | Lookup(t, s).Some? && Lookup(t, u).Some? && s != u ensures PartsWell(s, u) {
        NamesIfSwitchable(t, s, u);
      }
      CompressedEdges(t);
      forall s | Lookup(t, s).Some? && s != "" ensures Label(s[0]).Some? {
        var k := LookupEdge(t, s);
      }
    }
  }
}
