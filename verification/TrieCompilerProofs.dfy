/**
 The emitted switches mean the same as a linear search of the instruction table, for every string
 of bytes, exactly when the table is one that the generator can handle.
 */
module TrieCompilerProofs {
  import opened Wrappers
  import opened MachineInts
  import opened Trie
  import opened SortedStrings
  import opened TrieCompiler
  import opened SwitchableTries

  /** Every entry found at `s` below a node that is reached by `pre` is labelled with the full name. */
  ghost predicate Labelled(t: Trie, pre: string) {
    forall s :: Lookup(t, s).Some? ==> Lookup(t, s).value.inst == pre + s
  }

  ghost predicate AllActions(t: Trie) {
    forall s :: Lookup(t, s).Some? ==> Lookup(t, s).value.expr != ""
  }

  /** No name is continued by a NUL character. */
  ghost predicate NoNul(t: Trie) {
    forall s, u :: Lookup(t, s).Some? ==> Lookup(t, s + ['\0'] + u).None?
  }

  /** Every name means itself when it is printed between quotes. */
  ghost predicate AllQuotable(t: Trie) {
    forall s :: Lookup(t, s).Some? ==> Quotable(Lookup(t, s).value.inst)
  }

  ghost predicate Bounded(t: Trie, m: int) {
    forall s :: Lookup(t, s).Some? ==> |s| <= m
  }

  // ---- The shape of an emitted switch -----------------------------------------------

  /** The cases after the NUL case are one for each child, in key order. */
  lemma {:induction false} CasesOfKeys(t: Trie, keys: seq<string>, idx: nat)
    requires (forall k :: k in keys ==> k in t.children) && EmitCases(t, keys, idx).Some?
    ensures var cs := EmitCases(t, keys, idx).value;
            && |cs| == |keys|
            && forall i :: 0 <= i < |keys| ==>
                 cs[i].ch == FirstChar(keys[i]) && EmitChild(t, keys[i], idx) == Some(cs[i].body)
    decreases |keys|
  {
    hide EmitChild, FirstChar;
    if keys != [] {
      CasesOfKeys(t, keys[1..], idx);
    }
  }

  lemma CasesOf(t: Trie, idx: nat)
    requires Emit(t, idx).Some?
    ensures var keys := SortedKeys(t.children.Keys);
            && (forall k :: k in keys <==> k in t.children)
            && EmitCases(t, keys, idx).Some? && Emit(t, idx).value.Switch?
            && Emit(t, idx).value.cases == NulCase(t) + EmitCases(t, keys, idx).value
  {
    hide EmitCases, NulCase;
  }

  /** Every case is the NUL case or belongs to a child. */
  lemma CaseOrigin(t: Trie, idx: nat, k: Case) returns (key: string)
    requires Emit(t, idx).Some? && k in Emit(t, idx).value.cases
    ensures k in NulCase(t) || (key in t.children && k.ch == FirstChar(key) && EmitChild(t, key, idx) == Some(k.body))
  {
    hide Emit, EmitCases, EmitChild, FirstChar, NulCase;
    key := "";
    var keys := SortedKeys(t.children.Keys);
    hide SortedKeys, IsSortedListing;
    CasesOf(t, idx);
    CasesOfKeys(t, keys, idx);
    var cases := Emit(t, idx).value.cases;
    var i :| 0 <= i < |cases| && cases[i] == k;
    if i >= |NulCase(t)| {
      key := keys[i - |NulCase(t)|];
      assert key in keys;
    }
  }

  /** Every child has its case. */
  lemma CaseOfChild(t: Trie, idx: nat, key: string) returns (i: nat)
    requires Emit(t, idx).Some? && key in t.children
    ensures var cases := Emit(t, idx).value.cases;
            && |NulCase(t)| <= i < |cases| && cases[i].ch == FirstChar(key)
            && EmitChild(t, key, idx) == Some(cases[i].body)
  {
    hide Emit, EmitCases, EmitChild, FirstChar, NulCase;
    var keys := SortedKeys(t.children.Keys);
    hide SortedKeys, IsSortedListing;
    CasesOf(t, idx);
    CasesOfKeys(t, keys, idx);
    assert key in keys;
    var j :| 0 <= j < |keys| && keys[j] == key;
    i := |NulCase(t)| + j;
  }

  // ---- Soundness: an action runs only for its own name ------------------------------

  ghost predicate Holding(t: Trie, pre: string, name: string, action: string) {
    pre <= name && Lookup(t, name[|pre|..]) == Some(Entry(name, action))
  }

  lemma HoldingBelow(t: Trie, pre: string, k: string, name: string, action: string)
    requires DistinctEdges(t.children) && k in t.children && Holding(t.children[k], pre + k, name, action)
    ensures Holding(t, pre, name, action)
  {
    var s := name[|pre + k|..];
    assert name == pre + k + s && name[|pre|..] == k + s;
    LookupThrough(t, k, s);
  }

  lemma LabelledBelow(t: Trie, pre: string, k: string)
    requires DistinctEdges(t.children) && k in t.children && Labelled(t, pre)
    ensures Labelled(t.children[k], pre + k)
  {
    forall s | Lookup(t.children[k], s).Some? ensures Lookup(t.children[k], s).value.inst == pre + k + s {
      LookupThrough(t, k, s);
      assert pre + (k + s) == pre + k + s;
    }
  }

  /** A leaf compares the operator with the whole name it was emitted for. */
  lemma LeafSound(t: Trie, pre: string)
    requires Labelled(t, pre) && HasAction(t)
    ensures t.entry.value.inst == pre && Holding(t, pre, pre, t.entry.value.expr)
  {
    assert Lookup(t, "") == t.entry;
    assert pre + "" == pre;
  }

  lemma EmitParts(t: Trie, idx: nat)
    requires Emit(t, idx).Some?
    ensures Emit(t, idx).value.Switch? && Emit(t, idx).value.idx == idx && t.children != map[]
  {
  }

  lemma CompressedChild(t: Trie, k: string)
    requires Compressed(t) && k in t.children
    ensures DistinctEdges(t.children) && k != "" && Compressed(t.children[k])
    ensures t.children[k].children == map[] ==> t.children[k].entry.Some?
  {
  }

  /** Whatever the buffer holds, an action runs only for the bytes of its own name. */
  lemma {:induction false} Sound(t: Trie, pre: string, buf: seq<Byte>, op: seq<Byte>) returns (name: string)
    requires Compressed(t) && Labelled(t, pre) && Emit(t, |pre|).Some?
    requires Eval(Emit(t, |pre|).value, buf, op).Run?
    ensures var action := Eval(Emit(t, |pre|).value, buf, op).action;
            action != "" && Literal(name) == Some(op) && Holding(t, pre, name, action)
    decreases t, 1
  {
    hide Lookup, Emit, EmitCases, EmitChild, Labelled, Holding, Compressed, Literal;
    EmitParts(t, |pre|);
    var c := Emit(t, |pre|).value;
    var k := Select(c.cases, buf[c.idx]).value;
    var key := CaseOrigin(t, |pre|, k);
    if k in NulCase(t) {
      name := pre;
      LeafSound(t, pre);
    } else {
      name := SoundChild(t, pre, key, k.body, buf, op);
      CompressedChild(t, key);
      HoldingBelow(t, pre, key, name, Eval(k.body, buf, op).action);
    }
  }

  lemma {:induction false} SoundChild(t: Trie, pre: string, key: string, body: Code, buf: seq<Byte>, op: seq<Byte>)
    returns (name: string)
    requires Compressed(t) && Labelled(t, pre) && key in t.children && EmitChild(t, key, |pre|) == Some(body)
    requires Eval(body, buf, op).Run?
    ensures var action := Eval(body, buf, op).action;
            action != "" && Literal(name) == Some(op) && Holding(t.children[key], pre + key, name, action)
    decreases t, 0
  {
    hide Lookup, Emit, EmitCases, Labelled, Holding, Compressed, Literal;
    var child := t.children[key];
    CompressedChild(t, key);
    LabelledBelow(t, pre, key);
    if child.children != map[] {
      name := Sound(child, pre + key, buf, op);
    } else {
      name := pre + key;
      LeafSound(child, pre + key);
    }
  }

  // ---- Completeness: the action of a name that is held does run -----------------------

  lemma ActionsBelow(t: Trie, k: string)
    requires DistinctEdges(t.children) && k in t.children && AllActions(t)
    ensures AllActions(t.children[k])
  {
    hide Lookup;
    forall s | Lookup(t.children[k], s).Some? ensures Lookup(t.children[k], s).value.expr != "" {
      LookupThrough(t, k, s);
    }
  }

  lemma QuotableBelow(t: Trie, k: string)
    requires DistinctEdges(t.children) && k in t.children && AllQuotable(t)
    ensures AllQuotable(t.children[k])
  {
    hide Lookup, Quotable;
    forall s | Lookup(t.children[k], s).Some? ensures Quotable(Lookup(t.children[k], s).value.inst) {
      LookupThrough(t, k, s);
    }
  }

  lemma NoNulBelow(t: Trie, k: string)
    requires DistinctEdges(t.children) && k in t.children && NoNul(t)
    ensures NoNul(t.children[k])
  {
    hide Lookup;
    var c := t.children[k];
    forall s, u | Lookup(c, s).Some? ensures Lookup(c, s + ['\0'] + u).None? {
      LookupThrough(t, k, s);
      LookupThrough(t, k, s + ['\0'] + u);
      assert k + (s + ['\0'] + u) == (k + s) + ['\0'] + u;
    }
  }

  lemma BoundedBelow(t: Trie, k: string, m: int)
    requires DistinctEdges(t.children) && k in t.children && Bounded(t, m)
    ensures Bounded(t.children[k], m - |k|)
  {
    hide Lookup;
    forall s | Lookup(t.children[k], s).Some? ensures |s| <= m - |k| {
      LookupThrough(t, k, s);
      assert |k + s| <= m;
    }
  }

  /** Below a node that ends a name, no name goes on with a NUL character. */
  lemma NotNul(t: Trie, w: string)
    requires NoNul(t) && t.entry.Some? && Lookup(t, w).Some? && w != ""
    ensures w[0] != '\0'
  {
    assert Lookup(t, "") == t.entry;
    assert w == "" + [w[0]] + w[1..];
  }

  /** The switch at a node enters the case of the edge that the name follows. */
  lemma EntersEdge(t: Trie, idx: nat, key: string, s: string)
    requires Compressed(t) && NoNul(t) && Emit(t, idx).Some? && s != "" && Lookup(t, s).Some?
    requires key in t.children && key[0] == s[0] && Label(s[0]).Some?
    ensures var cases := Emit(t, idx).value.cases;
            && Select(cases, s[0] as int).Some?
            && EmitChild(t, key, idx) == Some(Select(cases, s[0] as int).value.body)
  {
    hide Compressed, NoNul, Lookup, Emit, EmitCases, EmitChild;
    EmitParts(t, idx);
    var cases := Emit(t, idx).value.cases;
    CompressedChild(t, key);
    var i := CaseOfChild(t, idx, key);
    var k := Select(cases, s[0] as int).value;
    assert k.ch == s[0];
    var other := CaseOrigin(t, idx, k);
    if t.entry.Some? {
      NotNul(t, s);
    }
    if k !in NulCase(t) {
      CompressedChild(t, other);
    }
  }

  ghost predicate ZeroPadded(buf: seq<Byte>, op: seq<Byte>) {
    op < buf && forall j :: |op| <= j < |buf| ==> buf[j] == 0
  }

  /** Where a switch looks when everything before is ASCII: at the next character, or at the padding. */
  lemma NextByte(pre: string, s: string, buf: seq<Byte>)
    requires Utf8.Ascii(pre) && ZeroPadded(buf, Utf8.Encode(pre + s))
    requires s != "" ==> Label(s[0]).Some?
    ensures |pre| < |buf| && buf[|pre|] as int == if s == "" then 0 else s[0] as int
  {
    if s == "" {
      assert pre + s == pre;
      Utf8.EncodeLength(pre);
    } else {
      Utf8.ByteAfter(pre, s);
      assert buf[|pre|] == Utf8.Encode(pre + s)[|pre|];
    }
  }

  /** The edges that a name follows are fit for switching. */
  lemma SwitchableEdge(t: Trie, key: string, pre: string)
    requires Compressed(t) && Switchable(t) && key in t.children && Utf8.Ascii(pre)
    ensures key != "" && Label(key[0]).Some?
    ensures t.children[key].children != map[] ==> Switchable(t.children[key]) && Utf8.Ascii(pre + key)
  {
    hide Label, Utf8.Ascii;
    CompressedChild(t, key);
    Utf8.AsciiConcat(pre, key);
  }

  lemma {:induction false} Complete(t: Trie, pre: string, s: string, buf: seq<Byte>, op: seq<Byte>)
    requires Compressed(t) && Labelled(t, pre) && AllActions(t) && AllQuotable(t) && NoNul(t) && Switchable(t)
    requires Emit(t, |pre|).Some? && Utf8.Ascii(pre)
    requires op == Utf8.Encode(pre + s) && Lookup(t, s).Some? && ZeroPadded(buf, op)
    ensures Eval(Emit(t, |pre|).value, buf, op) == Run(Lookup(t, s).value.expr)
    decreases t
  {
    hide Emit, EmitCases, Compressed, AllActions, AllQuotable, NoNul, Switchable, ZeroPadded, Labelled;
    hide Label, Quotable, Utf8.Ascii;
    EmitParts(t, |pre|);
    var c := Emit(t, |pre|).value;
    if s == "" {
      NextByte(pre, s, buf);
      CompleteHere(t, |pre|);
      LeafRuns(t, pre, op);
    } else {
      CompressedEdges(t);
      var key := LookupEdge(t, s);
      var rest := s[|key|..];
      SwitchableEdge(t, key, pre);
      NextByte(pre, s, buf);
      EntersEdge(t, |pre|, key, s);
      CompressedChild(t, key);
      LabelledBelow(t, pre, key);
      ActionsBelow(t, key);
      QuotableBelow(t, key);
      NoNulBelow(t, key);
      var child := t.children[key];
      assert pre + s == (pre + key) + rest;
      if child.children != map[] {
        Complete(child, pre + key, rest, buf, op);
      } else {
        LeafHoldsNothing(child, rest);
        LeafRuns(child, pre + key, op);
      }
    }
  }

  lemma LeafRuns(t: Trie, pre: string, op: seq<Byte>)
    requires Labelled(t, pre) && AllQuotable(t) && t.entry.Some? && op == Utf8.Encode(pre + "")
    ensures Literal(t.entry.value.inst) == Some(op)
  {
    assert Lookup(t, "") == t.entry;
  }

  lemma CompleteHere(t: Trie, idx: nat)
    requires AllActions(t) && t.entry.Some? && Emit(t, idx).Some?
    ensures HasAction(t) && Emit(t, idx).value.cases[0].ch == '\0'
    ensures Select(Emit(t, idx).value.cases, 0) == Some(Case('\0', Leaf(t.entry.value.inst, t.entry.value.expr)))
  {
    assert Lookup(t, "") == t.entry;
  }

  // ---- Which tables compile -----------------------------------------------------------

  lemma ActionHere(t: Trie)
    requires AllActions(t) && t.entry.Some?
    ensures HasAction(t)
  {
    assert Lookup(t, "") == t.entry;
  }

  /** No assertion of `emit` fails when every action is present. */
  lemma {:induction false} EmitSucceeds(t: Trie, idx: nat)
    requires Compressed(t) && AllActions(t) && t.children != map[]
    ensures Emit(t, idx).Some?
    decreases t, |t.children| + 1
  {
    hide Compressed, AllActions, EmitCases;
    EmitCasesSucceeds(t, SortedKeys(t.children.Keys), idx);
  }

  lemma {:induction false} EmitCasesSucceeds(t: Trie, keys: seq<string>, idx: nat)
    requires Compressed(t) && AllActions(t) && forall k :: k in keys ==> k in t.children
    ensures EmitCases(t, keys, idx).Some?
    decreases t, 0, |keys|
  {
    hide Compressed, AllActions, Emit, Lookup;
    if keys != [] {
      var k := keys[0];
      CompressedChild(t, k);
      ActionsBelow(t, k);
      if t.children[k].children != map[] {
        EmitSucceeds(t.children[k], idx + |k|);
      } else {
        ActionHere(t.children[k]);
      }
      EmitCasesSucceeds(t, keys[1..], idx);
    }
  }

  lemma DistinctLabels(t: Trie, idx: nat, i: nat, j: nat)
    requires Compressed(t) && NoNul(t) && Emit(t, idx).Some?
    requires i < j < |Emit(t, idx).value.cases|
    ensures Emit(t, idx).value.cases[i].ch != Emit(t, idx).value.cases[j].ch
  {
    hide Compressed, NoNul, Lookup;
    var keys := SortedKeys(t.children.Keys);
    CasesOfKeys(t, keys, idx);
    var n := |NulCase(t)|;
    var kj := keys[j - n];
    assert kj in keys;
    CompressedChild(t, kj);
    if i < n {
      var w := NameBelow(t, kj);
      NotNul(t, w);
    } else {
      var ki := keys[i - n];
      assert ki in keys;
      LessTotal(ki, kj);
      CompressedChild(t, ki);
    }
  }

  /** Behind the NUL case, the labels of a switch ascend. */
  lemma LabelsAscend(t: Trie, idx: nat, i: nat, j: nat)
    requires Compressed(t) && Emit(t, idx).Some?
    requires (if t.entry.Some? && t.entry.value.expr != "" then 1 else 0) <= i < j < |Emit(t, idx).value.cases|
    ensures Emit(t, idx).value.cases[i].ch < Emit(t, idx).value.cases[j].ch
  {
    hide Compressed, Lookup, Emit, EmitCases, EmitChild;
    var keys := SortedKeys(t.children.Keys);
    hide SortedKeys;
    CasesOf(t, idx);
    CasesOfKeys(t, keys, idx);
    var n := |NulCase(t)|;
    var ki, kj := keys[i - n], keys[j - n];
    assert ki in keys && kj in keys && Less(ki, kj);
    LessTotal(ki, kj);
    CompressedChild(t, ki);
    CompressedChild(t, kj);
  }

  lemma {:induction false} EmitWellFormed(t: Trie, pre: string, m: int, size: nat)
    requires Compressed(t) && Labelled(t, pre) && NoNul(t) && AllQuotable(t) && Switchable(t)
    requires Bounded(t, m) && |pre| + m < size && Emit(t, |pre|).Some?
    ensures WellFormed(Emit(t, |pre|).value, size)
    decreases t
  {
    hide Compressed, NoNul, Bounded, Emit, EmitCases, EmitChild, Lookup, Labelled;
    hide Label, Quotable, AllQuotable, Switchable;
    EmitParts(t, |pre|);
    var cases := Emit(t, |pre|).value.cases;
    forall i, j | 0 <= i < j < |cases| ensures cases[i].ch != cases[j].ch {
      DistinctLabels(t, |pre|, i, j);
    }
    forall i | 0 <= i < |cases| ensures Label(cases[i].ch).Some? && WellFormed(cases[i].body, size) {
      var key := CaseOrigin(t, |pre|, cases[i]);
      if cases[i] in NulCase(t) {
        NulIsLabel();
        QuotableHere(t);
      } else {
        ChildWellFormed(t, pre, key, m, size, cases[i].body);
      }
    }
    BoundNotNegative(t, m);
  }

  lemma {:induction false} ChildWellFormed(t: Trie, pre: string, key: string, m: int, size: nat, body: Code)
    requires Compressed(t) && Labelled(t, pre) && NoNul(t) && AllQuotable(t) && Switchable(t)
    requires Bounded(t, m) && |pre| + m < size
    requires key in t.children && EmitChild(t, key, |pre|) == Some(body)
    ensures Label(FirstChar(key)).Some? && WellFormed(body, size)
    decreases t, 0
  {
    hide Compressed, NoNul, Bounded, Emit, EmitCases, Lookup, Label, Quotable, AllQuotable, Labelled;
    CompressedChild(t, key);
    LabelledBelow(t, pre, key);
    NoNulBelow(t, key);
    BoundedBelow(t, key, m);
    QuotableBelow(t, key);
    if t.children[key].children != map[] {
      EmitWellFormed(t.children[key], pre + key, m - |key|, size);
    } else {
      QuotableHere(t.children[key]);
    }
  }

  lemma NulIsLabel()
    ensures Label('\0') == Some(0)
  {
  }

  lemma QuotableHere(t: Trie)
    requires AllQuotable(t) && t.entry.Some?
    ensures Quotable(t.entry.value.inst)
  {
    assert Lookup(t, "") == t.entry;
  }

  lemma BoundNotNegative(t: Trie, m: int)
    requires Compressed(t) && Bounded(t, m) && t.children != map[]
    ensures 0 <= m
  {
    var k :| k in t.children;
    var w := NameBelow(t, k);
  }

  lemma WellFormedParts(c: Code, size: nat, i: nat)
    requires c.Switch? && i < |c.cases| && WellFormed(c, size)
    ensures WellFormed(c.cases[i].body, size)
    ensures 0 < i ==> c.cases[0].ch != c.cases[i].ch
  {
  }

  /** A name that is continued by a NUL character makes two case labels coincide. */
  lemma {:induction false} NulClash(t: Trie, s: string, u: string, idx: nat, size: nat)
    requires Compressed(t) && AllActions(t) && Emit(t, idx).Some?
    requires Lookup(t, s).Some? && Lookup(t, s + ['\0'] + u).Some?
    ensures !WellFormed(Emit(t, idx).value, size)
    decreases |s|
  {
    hide AllActions, Emit, EmitCases, Compressed, Lookup, WellFormed;
    EmitParts(t, idx);
    var c := Emit(t, idx).value;
    var w := s + ['\0'] + u;
    CompressedEdges(t);
    var key := LookupEdge(t, w);
    var i := CaseOfChild(t, idx, key);
    if s == "" {
      InsertHere(t, Entry("", ""));
      CompleteHere(t, idx);
      assert c.cases[0].ch == c.cases[i].ch;
    } else {
      var k := LookupEdge(t, s);
      assert k == key;
      CompressedChild(t, k);
      ActionsBelow(t, k);
      var rest := s[|k|..];
      assert w[|k|..] == rest + ['\0'] + u;
      LeafHoldsNothing(t.children[k], rest + ['\0'] + u);
      NulClash(t.children[k], rest, u, idx + |k|, size);
    }
    if WellFormed(c, size) {
      WellFormedParts(c, size, i);
    }
  }

  // ---- Only tries that can be switched over work ------------------------------------------

  /** The code runs some action for the name, in a buffer for `m` bytes. */
  ghost predicate RunsName(c: Code, name: string, m: nat) {
    var op := Utf8.Encode(name);
    |op| <= m && Eval(c, Padded(op, m + 1), op).Run?
  }

  ghost predicate Reaches(t: Trie, pre: string, m: nat)
    requires Emit(t, |pre|).Some?
  {
    forall s :: Lookup(t, s).Some? ==> RunsName(Emit(t, |pre|).value, pre + s, m)
  }

  lemma SelectOnly(cases: seq<Case>, i: nat, b: Byte)
    requires i < |cases| && Label(cases[i].ch) == Some(b)
    requires forall j, k :: 0 <= j < k < |cases| ==> cases[j].ch != cases[k].ch
    ensures Select(cases, b) == Some(cases[i])
  {
    var k := Select(cases, b).value;
    var j :| 0 <= j < |cases| && cases[j] == k;
  }

  lemma PaddedIsZeroPadded(op: seq<Byte>, m: nat)
    requires |op| <= m
    ensures ZeroPadded(Padded(op, m + 1), op)
  {
  }

  /** A working program works below each edge to another switch. */
  lemma ReachesBelow(t: Trie, pre: string, key: string, m: nat)
    requires Compressed(t) && Emit(t, |pre|).Some? && WellFormed(Emit(t, |pre|).value, m + 1)
    requires Utf8.Ascii(pre) && Reaches(t, pre, m) && key in t.children
    ensures key != "" && Label(key[0]).Some?
    ensures t.children[key].children != map[] ==>
              && Emit(t.children[key], |pre + key|).Some?
              && WellFormed(Emit(t.children[key], |pre + key|).value, m + 1)
              && Reaches(t.children[key], pre + key, m)
  {
    hide Compressed, Emit, EmitCases, Lookup, Label, ZeroPadded, Padded, Select, Utf8.Encode, Utf8.Ascii;
    EmitParts(t, |pre|);
    CompressedChild(t, key);
    var c := Emit(t, |pre|).value;
    var i := CaseOfChild(t, |pre|, key);
    var body := c.cases[i].body;
    var child := t.children[key];
    if child.children != map[] {
      assert |pre + key| == |pre| + |key|;
      forall s | Lookup(child, s).Some? ensures RunsName(body, (pre + key) + s, m) {
        LookupThrough(t, key, s);
        assert pre + (key + s) == (pre + key) + s;
        assert RunsName(c, pre + (key + s), m);
        var op := Utf8.Encode((pre + key) + s);
        var buf := Padded(op, m + 1);
        PaddedIsZeroPadded(op, m);
        NextByte(pre, key + s, buf);
        LabelIsCode(key[0]);
        SelectOnly(c.cases, i, buf[|pre|]);
      }
    }
  }

  lemma LabelIsCode(c: char)
    ensures Label(c).Some? ==> Label(c).value as int == c as int
  {
  }

  /** Behind a character of several bytes, every name makes a switch look at the same byte of what is before it. */
  lemma TakenCase(t: Trie, pre: string, x: string, m: nat) returns (k: Case)
    requires Compressed(t) && Labelled(t, pre) && Emit(t, |pre|).Some? && Reaches(t, pre, m)
    requires !Utf8.Ascii(pre) && Lookup(t, x).Some?
    ensures |pre| < |Utf8.Encode(pre)|
    ensures Select(Emit(t, |pre|).value.cases, Utf8.Encode(pre)[|pre|]) == Some(k)
    ensures if k in NulCase(t) then x == "" else x != "" && x[0] == k.ch
  {
    hide Compressed, Emit, EmitCases, EmitChild, Lookup, Label, Select, Labelled, Utf8.Encode, Utf8.Ascii, Literal;
    Utf8.EncodeLength(pre);
    Utf8.EncodeConcat(pre, x);
    EmitParts(t, |pre|);
    assert RunsName(Emit(t, |pre|).value, pre + x, m);
    var op := Utf8.Encode(pre + x);
    var buf := Padded(op, m + 1);
    assert buf[|pre|] == Utf8.Encode(pre)[|pre|];
    k := Select(Emit(t, |pre|).value.cases, buf[|pre|]).value;
    var key := CaseOrigin(t, |pre|, k);
    assert Eval(k.body, buf, op).Run?;
    var name;
    if k in NulCase(t) {
      LeafSound(t, pre);
      name := pre;
      assert k.body == Leaf(pre, t.entry.value.expr);
      assert Literal(pre) == Some(op);
    } else {
      name := SoundChild(t, pre, key, k.body, buf, op);
      CompressedChild(t, key);
    }
    LiteralName(name, pre + x);
    assert name == pre + x;
    if k in NulCase(t) {
      assert |x| == 0;
    } else {
      assert pre + key <= pre + x && (pre + x)[|pre|] == (pre + key)[|pre|];
    }
  }

  lemma LiteralName(name: string, other: string)
    requires Literal(name) == Some(Utf8.Encode(other))
    ensures name == other
  {
    Utf8.EncodeInjective(name, other);
  }

  /** A switch behind a character of several bytes confuses two names. */
  lemma Misaligned(t: Trie, pre: string, m: nat)
    requires Compressed(t) && Branches(t) && Labelled(t, pre) && Emit(t, |pre|).Some? && !Utf8.Ascii(pre)
    ensures !Reaches(t, pre, m)
  {
    hide Compressed, Branches, Emit, Lookup, Labelled, Reaches, Utf8.Ascii;
    EmitParts(t, |pre|);
    var v, w := NamesThatPart(t);
    if Reaches(t, pre, m) {
      var k := TakenCase(t, pre, v, m);
      var l := TakenCase(t, pre, w, m);
    }
  }

  /** If the code of a trie works for all names held, it looks at the bytes it means to. */
  lemma {:induction false} OnlyIfSwitchable(t: Trie, pre: string, m: nat)
    requires Compressed(t) && Labelled(t, pre) && Emit(t, |pre|).Some? && WellFormed(Emit(t, |pre|).value, m + 1)
    requires Utf8.Ascii(pre) && Reaches(t, pre, m)
    ensures Switchable(t)
    decreases t
  {
    hide Compressed, Branches, Emit, EmitCases, Lookup, Label, Labelled, WellFormed, Reaches, Utf8.Ascii;
    forall k | k in t.children && k != ""
      ensures Label(k[0]).Some?
      ensures t.children[k].children != map[] ==> Utf8.Ascii(k) && Switchable(t.children[k])
    {
      var child := t.children[k];
      ReachesBelow(t, pre, k, m);
      EdgeNotEmpty(t, k);
      LabelledBelow(t, pre, k);
      if child.children != map[] {
        if !Utf8.Ascii(pre + k) {
          Misaligned(child, pre + k, m);
        }
        Utf8.AsciiConcat(pre, k);
        OnlyIfSwitchable(child, pre + k, m);
      }
    }
  }
}
