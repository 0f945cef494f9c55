/**
 The code that `instruction_parser` of scripts/gen-s-parser.py emits for a trie, as a tree of
 switches, and what the printed C++ does on an arbitrary string of bytes. Names are text, and
 lengths and positions in them count characters; the emitted code works on the bytes of UTF-8.
 */
module TrieCompiler {
  import opened Wrappers
  import opened MachineInts
  import opened Trie
  import opened SortedStrings
  import Utf8

  /** `Leaf` is the comparison `op == inst` that guards an action. Whatever no case matches jumps to parse_error. */
  datatype Code =
    | Leaf(inst: string, action: string)
    | Switch(idx: nat, cases: seq<Case>)

  datatype Case = Case(ch: char, body: Code)

  datatype Outcome = Run(action: string) | ParseError | OutOfBounds

  // ---- What is printed between quotes -----------------------------------------------

  predicate BreaksLiteral(c: char) {
    c == '\\' || c == '\n' || c == '\r'
  }

  /** The byte of a character literal, if the printed text is a literal of one character and means itself. */
  function Label(c: char): Option<Byte> {
    if c as int < 0x80 && c != '\'' && !BreaksLiteral(c) then Some(c as int) else None
  }

  predicate Quotable(inst: string) {
    forall i :: 0 <= i < |inst| ==> inst[i] != '"' && !BreaksLiteral(inst[i])
  }

  /** The bytes of a string literal, if the printed text means itself. */
  function Literal(inst: string): Option<seq<Byte>> {
    if Quotable(inst) then Some(Utf8.Encode(inst)) else None
  }

  // ---- Semantics of the emitted code ----------------------------------------------

  /** The case that a switch over a byte enters. */
  function Select(cases: seq<Case>, b: Byte): (r: Option<Case>)
    ensures r.Some? ==> r.value in cases && Label(r.value.ch) == Some(b)
    ensures r.None? ==> forall i :: 0 <= i < |cases| ==> Label(cases[i].ch) != Some(b)
  {
    if cases == [] then None
    else if Label(cases[0].ch) == Some(b) then Some(cases[0])
    else Select(cases[1..], b)
  }

  function Eval(c: Code, buf: seq<Byte>, op: seq<Byte>): Outcome {
    match c
    case Leaf(inst, action) => if Literal(inst) == Some(op) then Run(action) else ParseError
    case Switch(idx, cases) =>
      if |buf| <= idx then OutOfBounds
      else match Select(cases, buf[idx])
        case None => ParseError
        case Some(k) => Eval(k.body, buf, op)
  }

  /** A buffer of `size` bytes that starts with `op` and is zero after it. */
  function Padded(op: seq<Byte>, size: nat): seq<Byte>
    requires |op| <= size
  {
    op + seq(size - |op|, _ => 0)
  }

  /** The whole emitted function: length check, copy to a zeroed buffer, switches. */
  function RunProgram(c: Code, instLength: nat, op: seq<Byte>): Outcome {
    if |op| >= instLength + 1 then ParseError else Eval(c, Padded(op, instLength + 1), op)
  }

  /**
   Every `buf[idx]` is inside the buffer, no switch repeats a case label, and what is printed
   between quotes means itself.
   */
  ghost predicate WellFormed(c: Code, size: nat) {
    match c
    case Leaf(inst, _) => Quotable(inst)
    case Switch(idx, cases) =>
      && idx < size
      && (forall i :: 0 <= i < |cases| ==> Label(cases[i].ch).Some?)
      && (forall i, j :: 0 <= i < j < |cases| ==> cases[i].ch != cases[j].ch)
      && (forall i :: 0 <= i < |cases| ==> WellFormed(cases[i].body, size))
  }

  // ---- Compilation ----------------------------------------------------------------

  /** An expression counts as present only if it is not the empty string. */
  ghost predicate HasAction(t: Trie) {
    t.entry.Some? && t.entry.value.expr != ""
  }

  ghost function NulCase(t: Trie): seq<Case> {
    if HasAction(t) then [Case('\0', Leaf(t.entry.value.inst, t.entry.value.expr))] else []
  }

  function FirstChar(k: string): char {
    if k == "" then '\0' else k[0]
  }

  /** What `emit` prints for a node, or `None` if one of its assertions fails. */
  ghost function Emit(t: Trie, idx: nat): Option<Code>
    decreases t, 1
  {
    if t.children == map[] then None
    else match EmitCases(t, SortedKeys(t.children.Keys), idx)
      case None => None
      case Some(cases) => Some(Switch(idx, NulCase(t) + cases))
  }

  ghost function EmitCases(t: Trie, keys: seq<string>, idx: nat): Option<seq<Case>>
    requires forall k :: k in keys ==> k in t.children
    decreases t, 0, |keys|
  {
    if keys == [] then Some([])
    else match EmitChild(t, keys[0], idx)
      case None => None
      case Some(body) =>
        match EmitCases(t, keys[1..], idx)
        case None => None
        case Some(rest) => Some([Case(FirstChar(keys[0]), body)] + rest)
  }

  ghost function EmitChild(t: Trie, k: string, idx: nat): Option<Code>
    requires k in t.children
    decreases t, 0, 0
  {
    var child := t.children[k];
    if child.children != map[] then Emit(child, idx + |k|)
    else if HasAction(child) then Some(Leaf(child.entry.value.inst, child.entry.value.expr))
    else None
  }
}
