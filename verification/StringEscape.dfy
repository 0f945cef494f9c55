/**
 The string case of `printed` in scripts/fuzz_shell.js, over UTF-16 code units, and the
 reading of such text by the string rules of section 7 of RFC 8259.
 */
module StringEscape {
  import opened Wrappers
  import opened MachineInts

  type CodeUnit = u: nat | u < 0x1_0000

  const QUOTE: CodeUnit := 0x22
  const BACKSLASH: CodeUnit := 0x5C
  const LOWER_U: CodeUnit := 0x75

  predicate IsHigh(u: CodeUnit) { 0xD800 <= u < 0xDC00 }

  predicate IsLow(u: CodeUnit) { 0xDC00 <= u < 0xE000 }

  // ---- What the escaped text is -------------------------------------------------------

  function HexDigit(d: nat): CodeUnit
    requires d < 16
  {
    if d < 10 then 0x30 + d else 0x61 + (d - 10)
  }

  /** \uXXXX */
  function Escape16(u: CodeUnit): seq<CodeUnit> {
    [BACKSLASH, LOWER_U, HexDigit(u / 0x1000), HexDigit(u / 0x100 % 16), HexDigit(u / 0x10 % 16), HexDigit(u % 16)]
  }

  /** The letter of a two-character escape. */
  function ShortEscape(u: CodeUnit): Option<CodeUnit> {
    if u == QUOTE || u == BACKSLASH then Some(u)
    else if u == 0x08 then Some(0x62)
    else if u == 0x0C then Some(0x66)
    else if u == 0x0A then Some(0x6E)
    else if u == 0x0D then Some(0x72)
    else if u == 0x09 then Some(0x74)
    else None
  }

  function EscapeUnit(u: CodeUnit): seq<CodeUnit> {
    if ShortEscape(u).Some? then [BACKSLASH, ShortEscape(u).value]
    else if 32 <= u < 127 then [u]
    else Escape16(u)
  }

  /** Each code unit is escaped on its own, also those of a surrogate pair. */
  function EscapeAll(x: seq<CodeUnit>): seq<CodeUnit> {
    if x == [] then [] else EscapeUnit(x[0]) + EscapeAll(x[1..])
  }

  lemma {:induction false} EscapeAppend(x: seq<CodeUnit>, u: CodeUnit)
    ensures EscapeAll(x + [u]) == EscapeAll(x) + EscapeUnit(u)
    decreases |x|
  {
    hide EscapeUnit;
    if x == [] {
      assert [u][1..] == [];
    } else {
      assert (x + [u])[1..] == x[1..] + [u];
      EscapeAppend(x[1..], u);
    }
  }

  // ---- The script's loop ----------------------------------------------------------------

  /** The code point that `for (u of x)` takes at position `i`: a pair, or a single unit. */
  function CodePointAt(x: seq<CodeUnit>, i: nat): (c: nat)
    requires i < |x|
    ensures c < 0x1_0000 <==> !(IsHigh(x[i]) && i + 1 < |x| && IsLow(x[i + 1]))
    ensures c < 0x11_0000
  {
    var first: int := x[i];
    if IsHigh(x[i]) && i + 1 < |x| && IsLow(x[i + 1])
    then 0x1_0000 + (first - 0xD800) * 0x400 + (x[i + 1] - 0xDC00)
    else first
  }

  lemma UpDigit(d: nat)
    ensures Up(d, 4) == 0x10 * d && Up(d, 8) == 0x100 * d && Up(d, 12) == 0x1000 * d
  {
    assert Up(d, 8) == 0x10 * Up(d, 4);
    assert Up(d, 12) == 0x10 * Up(d, 8);
  }

  lemma DownDigits(u: nat)
    ensures Down(u, 4) == u / 0x10 && Down(u, 8) == u / 0x100 && Down(u, 12) == u / 0x1000
  {
    assert Down(u, 4) == u / 2 / 2 / 2 / 2 == u / 0x10;
    assert Down(u, 8) == Down(u / 2 / 2 / 2 / 2, 4);
    assert Down(u / 0x10, 4) == u / 0x10 / 2 / 2 / 2 / 2 == u / 0x100;
    assert Down(u, 12) == Down(u / 2 / 2 / 2 / 2, 8);
    assert Down(u / 0x10, 8) == Down(u / 0x10 / 2 / 2 / 2 / 2, 4) == Down(u / 0x100, 4);
  }

  lemma DigitUnder(u: nat, mask: nat, k: nat)
    requires mask == Up(15, k)
    ensures BitAnd(u, mask) == Up(Down(u, k) % 16, k)
  {
    assert Pow2(4) == 16;
    hide BitAnd, Up, Down;
    AndUp(u, 15, k);
    AndLowOnes(Down(u, k), 4);
  }

  lemma DigitMasks(u: nat)
    ensures BitAnd(u, 0xF000) == 0x1000 * (u / 0x1000 % 16)
    ensures BitAnd(u, 0x0F00) == 0x100 * (u / 0x100 % 16)
    ensures BitAnd(u, 0x00F0) == 0x10 * (u / 0x10 % 16)
    ensures BitAnd(u, 0x000F) == u % 16
  {
    hide BitAnd, Up, Down;
    UpDigit(15);
    DownDigits(u);
    DigitUnder(u, 0xF000, 12);
    DigitUnder(u, 0x0F00, 8);
    DigitUnder(u, 0x00F0, 4);
    UpDigit(u / 0x1000 % 16);
    UpDigit(u / 0x100 % 16);
    UpDigit(u / 0x10 % 16);
    assert Pow2(4) == 16;
    AndLowOnes(u, 4);
  }

  /** The four digits of one \uXXXX, each taken by masking and shifting. */
  method PrintEscape(escaped: seq<CodeUnit>, codePoint: nat) returns (longer: seq<CodeUnit>)
    requires codePoint < 0x1_0000
    ensures longer == escaped + Escape16(codePoint)
  {
    hide BitAnd;
    DigitMasks(codePoint);
    longer := escaped + [BACKSLASH, LOWER_U];
    longer := longer + [HexDigit(BitAnd(codePoint, 0xF000) / 0x1000)];
    longer := longer + [HexDigit(BitAnd(codePoint, 0x0F00) / 0x100)];
    longer := longer + [HexDigit(BitAnd(codePoint, 0x00F0) / 0x10)];
    longer := longer + [HexDigit(BitAnd(codePoint, 0x000F))];
  }

  lemma LowTen(offset: nat)
    ensures BitAnd(offset, 0x3FF) == offset % 0x400
  {
    assert Pow2(10) == 0x400;
    hide BitAnd;
    AndLowOnes(offset, 10);
  }

  lemma EscapeNext(x: seq<CodeUnit>, i: nat)
    requires i < |x|
    ensures EscapeAll(x[..i + 1]) == EscapeAll(x[..i]) + EscapeUnit(x[i])
  {
    hide EscapeUnit, EscapeAll;
    assert x[..i + 1] == x[..i] + [x[i]];
    EscapeAppend(x[..i], x[i]);
  }

  /** The two halves that are printed for a code point above 0xFFFF are the units it was made of. */
  lemma Halves(x: seq<CodeUnit>, i: nat)
    requires i < |x| && CodePointAt(x, i) >= 0x1_0000
    ensures i + 1 < |x|
    ensures var offset := CodePointAt(x, i) - 0x1_0000;
            0xD800 + offset / 0x400 == x[i] && 0xDC00 + BitAnd(offset, 0x3FF) == x[i + 1]
    ensures EscapeUnit(x[i]) == Escape16(x[i]) && EscapeUnit(x[i + 1]) == Escape16(x[i + 1])
  {
    hide BitAnd, Escape16;
    LowTen(CodePointAt(x, i) - 0x1_0000);
  }

  method Escape(x: seq<CodeUnit>) returns (escaped: seq<CodeUnit>)
    ensures escaped == EscapeAll(x)
  {
    hide EscapeAll, BitAnd, Escape16;
    escaped := [];
    var i := 0;
    EscapeNothing();
    while i < |x|
      invariant i <= |x|
      invariant escaped == EscapeAll(x[..i])
    {
      EscapeNext(x, i);
      var codePoint := CodePointAt(x, i);
      if ShortEscape(x[i]).Some? {
        escaped := escaped + [BACKSLASH, ShortEscape(x[i]).value];
        i := i + 1;
        continue;
      }
      if 32 <= codePoint < 127 {
        escaped := escaped + [x[i]];
        i := i + 1;
        continue;
      }
      if codePoint < 0x1_0000 {
        escaped := PrintEscape(escaped, codePoint);
        i := i + 1;
      } else {
        EscapeNext(x, i + 1);
        Halves(x, i);
        escaped := PrintEscape(escaped, 0xD800 + (codePoint - 0x1_0000) / 0x400);
        escaped := PrintEscape(escaped, 0xDC00 + BitAnd(codePoint - 0x1_0000, 0x3FF));
        i := i + 2;
      }
    }
    assert x[..i] == x;
  }

  lemma EscapeNothing()
    ensures EscapeAll([]) == []
  {
  }

  // ---- Reading it back ----------------------------------------------------------------

  function HexValue(u: CodeUnit): Option<nat> {
    if 0x30 <= u <= 0x39 then Some(u - 0x30)
    else if 0x61 <= u <= 0x66 then Some(u - 0x61 + 10)
    else if 0x41 <= u <= 0x46 then Some(u - 0x41 + 10)
    else None
  }

  /** The unit that a backslash and this letter stand for. */
  function UnescapedLetter(u: CodeUnit): Option<CodeUnit> {
    match u
    case 0x22 => Some(0x22)
    case 0x5C => Some(0x5C)
    case 0x2F => Some(0x2F)
    case 0x62 => Some(0x08)
    case 0x66 => Some(0x0C)
    case 0x6E => Some(0x0A)
    case 0x72 => Some(0x0D)
    case 0x74 => Some(0x09)
    case _ => None
  }

  /** Four hexadecimal digits, of either case. */
  function HexUnit(t: seq<CodeUnit>): Option<CodeUnit>
    requires |t| == 4
  {
    var a, b, c, d := HexValue(t[0]), HexValue(t[1]), HexValue(t[2]), HexValue(t[3]);
    if a.Some? && b.Some? && c.Some? && d.Some?
       && a.value < 16 && b.value < 16 && c.value < 16 && d.value < 16
    then Some(0x1000 * a.value + 0x100 * b.value + 0x10 * c.value + d.value)
    else None
  }

  /** The first character of a string body of RFC 8259 section 7, and how many units it takes. */
  function ReadChar(t: seq<CodeUnit>): (r: Option<(CodeUnit, nat)>)
    requires t != []
    ensures r.Some? ==> 0 < r.value.1 <= |t|
  {
    if t[0] == 0x22 || t[0] < 0x20 then None
    else if t[0] != 0x5C then Some((t[0], 1))
    else if |t| < 2 then None
    else if t[1] == 0x75 then
      if |t| < 6 then None
      else match HexUnit(t[2..6]) case None => None case Some(u) => Some((u, 6))
    else match UnescapedLetter(t[1]) case None => None case Some(u) => Some((u, 2))
  }

  /** The code units that the body of a JSON string denotes; None if it is not such a body. */
  function Unescape(t: seq<CodeUnit>): Option<seq<CodeUnit>>
    decreases |t|
  {
    if t == [] then Some([])
    else
      match ReadChar(t)
      case None => None
      case Some(read) =>
        match Unescape(t[read.1..])
        case None => None
        case Some(rest) => Some([read.0] + rest)
  }

  lemma DigitValue(d: nat)
    requires d < 16
    ensures HexValue(HexDigit(d)) == Some(d)
  {
  }

  lemma FourDigits(u: nat)
    requires u < 0x1_0000
    ensures u == 0x1000 * (u / 0x1000) + 0x100 * (u / 0x100 % 16) + 0x10 * (u / 0x10 % 16) + u % 16
  {
    assert u / 0x1000 == u / 0x100 / 16 && u / 0x100 == u / 0x10 / 16;
  }

  lemma ReadEscape16(u: CodeUnit, rest: seq<CodeUnit>)
    ensures ReadChar(Escape16(u) + rest) == Some((u, 6))
  {
    var a, b, c, d := u / 0x1000, u / 0x100 % 16, u / 0x10 % 16, u % 16;
    var digits := [HexDigit(a), HexDigit(b), HexDigit(c), HexDigit(d)];
    assert Escape16(u) == [BACKSLASH, LOWER_U] + digits;
    hide Escape16, HexDigit, HexValue;
    FourDigits(u);
    DigitValue(a);
    DigitValue(b);
    DigitValue(c);
    DigitValue(d);
    assert HexUnit(digits) == Some(u);
    hide HexUnit;
    assert (([BACKSLASH, LOWER_U] + digits) + rest)[2..6] == digits;
  }

  lemma ReadUnit(u: CodeUnit, rest: seq<CodeUnit>)
    ensures ReadChar(EscapeUnit(u) + rest) == Some((u, |EscapeUnit(u)|))
  {
    hide Escape16, HexUnit;
    if ShortEscape(u).Some? || 32 <= u < 127 {
    } else {
      ReadEscape16(u, rest);
      assert |Escape16(u)| == 6 by { Escape16Printable(u); }
    }
  }

  lemma Escape16Printable(u: CodeUnit)
    ensures |Escape16(u)| == 6 && forall k :: 0 <= k < 6 ==> 0x20 <= Escape16(u)[k] <= 0x7E
  {
  }

  /** Reading what was escaped gives back every code unit, lone surrogates included. */
  lemma {:induction false} RoundTrip(x: seq<CodeUnit>)
    ensures Unescape(EscapeAll(x)) == Some(x)
  {
    hide ReadChar, EscapeUnit;
    if x != [] {
      var first, rest := EscapeUnit(x[0]), EscapeAll(x[1..]);
      ReadUnit(x[0], rest);
      UnitNotEmpty(x[0]);
      assert (first + rest)[|first|..] == rest;
      RoundTrip(x[1..]);
      assert x == [x[0]] + x[1..];
    }
  }

  lemma UnitNotEmpty(u: CodeUnit)
    ensures |EscapeUnit(u)| > 0
  {
  }

  /** The escaped text is printable ASCII. */
  lemma {:induction false} OnlyPrintable(x: seq<CodeUnit>)
    ensures forall k :: 0 <= k < |EscapeAll(x)| ==> 0x20 <= EscapeAll(x)[k] <= 0x7E
  {
    hide Escape16;
    if x != [] {
      Escape16Printable(x[0]);
      OnlyPrintable(x[1..]);
    }
  }

  /** Different strings print differently. */
  lemma EscapeInjective(x: seq<CodeUnit>, y: seq<CodeUnit>)
    requires EscapeAll(x) == EscapeAll(y)
    ensures x == y
  {
    RoundTrip(x);
    RoundTrip(y);
  }

  // ---- Which of the texts it is ------------------------------------------------------------------

  predicate Printable(t: seq<CodeUnit>) {
    forall k :: 0 <= k < |t| ==> 0x20 <= t[k] <= 0x7E
  }

  /** The digits of \\u escapes are 0-9 or a-f. */
  ghost predicate LowerDigits(t: seq<CodeUnit>)
    decreases |t|
  {
    t != [] && ReadChar(t).Some? ==>
      var n := ReadChar(t).value.1;
      && (n == 6 ==> forall k :: 2 <= k < 6 ==> 0x30 <= t[k] <= 0x39 || 0x61 <= t[k] <= 0x66)
      && LowerDigits(t[n..])
  }

  lemma UnitLength(u: CodeUnit)
    ensures 1 <= |EscapeUnit(u)| <= 6
  {
  }

  /** One printable character of any text takes at least as much as is printed for it. */
  lemma ReadNoShorter(t: seq<CodeUnit>)
    requires t != [] && Printable(t) && ReadChar(t).Some?
    ensures |EscapeUnit(ReadChar(t).value.0)| <= ReadChar(t).value.1
  {
    var n := ReadChar(t).value.1;
    if n == 1 {
      assert 0x20 <= t[0] <= 0x7E;
    } else if n == 6 {
      UnitLength(ReadChar(t).value.0);
    }
  }

  lemma LowerDigitBack(d: CodeUnit)
    requires 0x30 <= d <= 0x39 || 0x61 <= d <= 0x66
    ensures HexValue(d).Some? && HexValue(d).value < 16 && HexDigit(HexValue(d).value) == d
  {
  }

  /** The four digits of a number below 2^16. */
  lemma DigitsOf(u: nat, a: nat, b: nat, c: nat, d: nat)
    requires a < 16 && b < 16 && c < 16 && d < 16
    requires u == 0x1000 * a + 0x100 * b + 0x10 * c + d
    ensures u / 0x1000 == a && u / 0x100 % 16 == b && u / 0x10 % 16 == c && u % 16 == d
  {
    DivModUnique(u, 0x1000, a, 0x100 * b + 0x10 * c + d);
    DivModUnique(u, 0x100, 0x10 * a + b, 0x10 * c + d);
    DivModUnique(u, 0x10, 0x100 * a + 0x10 * b + c, d);
  }

  /** Four lower-case digits are those that are printed for their value. */
  lemma HexBack(t: seq<CodeUnit>)
    requires |t| == 4 && forall k :: 0 <= k < 4 ==> 0x30 <= t[k] <= 0x39 || 0x61 <= t[k] <= 0x66
    ensures HexUnit(t).Some? && Escape16(HexUnit(t).value) == [BACKSLASH, LOWER_U] + t
  {
    LowerDigitBack(t[0]);
    LowerDigitBack(t[1]);
    LowerDigitBack(t[2]);
    LowerDigitBack(t[3]);
    var a, b, c, d := HexValue(t[0]).value, HexValue(t[1]).value, HexValue(t[2]).value, HexValue(t[3]).value;
    var u := 0x1000 * a + 0x100 * b + 0x10 * c + d;
    assert HexUnit(t) == Some(u);
    hide HexUnit, HexValue, HexDigit;
    DigitsOf(u, a, b, c, d);
  }

  /** If it takes no more, and its digits are lower-case, it is what is printed. */
  lemma ReadSame(t: seq<CodeUnit>)
    requires t != [] && Printable(t) && ReadChar(t).Some? && LowerDigits(t)
    requires |EscapeUnit(ReadChar(t).value.0)| == ReadChar(t).value.1
    ensures t[..ReadChar(t).value.1] == EscapeUnit(ReadChar(t).value.0)
  {
    var (u, n) := ReadChar(t).value;
    if n == 6 {
      var hex := t[2..6];
      assert hex[0] == t[2] && hex[1] == t[3] && hex[2] == t[4] && hex[3] == t[5];
      HexBack(hex);
      assert HexUnit(hex) == Some(u);
      hide HexUnit, Escape16;
      assert t[..6] == [t[0], t[1]] + hex;
      Escape16Printable(u);
    } else if n == 1 {
      assert t[..1] == [t[0]];
    } else {
      assert t[..2] == [t[0], t[1]];
    }
  }

  /** No printable text of a string is shorter than what is printed for it. */
  lemma {:induction false} ShortestForm(t: seq<CodeUnit>, x: seq<CodeUnit>)
    requires Printable(t) && Unescape(t) == Some(x)
    ensures |EscapeAll(x)| <= |t|
    decreases |t|
  {
    hide ReadChar, EscapeUnit;
    if t != [] {
      var n := ReadChar(t).value.1;
      ReadNoShorter(t);
      ShortestForm(t[n..], x[1..]);
    }
  }

  /** Of the shortest printable texts of a string, what is printed is the one with lower-case digits. */
  lemma {:induction false} OnlyForm(t: seq<CodeUnit>, x: seq<CodeUnit>)
    requires Printable(t) && LowerDigits(t) && Unescape(t) == Some(x) && |t| == |EscapeAll(x)|
    ensures t == EscapeAll(x)
    decreases |t|
  {
    hide ReadChar, EscapeUnit;
    if t != [] {
      var (u, n) := ReadChar(t).value;
      ReadNoShorter(t);
      ShortestForm(t[n..], x[1..]);
      ReadSame(t);
      OnlyForm(t[n..], x[1..]);
      assert t == t[..n] + t[n..];
    }
  }

  lemma Escape16Lower(u: CodeUnit)
    ensures |Escape16(u)| == 6
    ensures forall k :: 2 <= k < 6 ==> 0x30 <= Escape16(u)[k] <= 0x39 || 0x61 <= Escape16(u)[k] <= 0x66
  {
  }

  lemma {:induction false} PrintsLowerDigits(x: seq<CodeUnit>)
    ensures LowerDigits(EscapeAll(x))
    decreases |x|
  {
    hide ReadChar, EscapeUnit;
    if x != [] {
      var first, rest := EscapeUnit(x[0]), EscapeAll(x[1..]);
      ReadUnit(x[0], rest);
      UnitNotEmpty(x[0]);
      assert (first + rest)[|first|..] == rest;
      PrintsLowerDigits(x[1..]);
      UnitLower(x[0]);
    }
  }

  lemma UnitLower(u: CodeUnit)
    ensures |EscapeUnit(u)| == 6 ==>
              forall k :: 2 <= k < 6 ==> 0x30 <= EscapeUnit(u)[k] <= 0x39 || 0x61 <= EscapeUnit(u)[k] <= 0x66
  {
    hide Escape16;
    Escape16Lower(u);
  }

  /**
   What is printed for a string is the one text that denotes it by section 7 of RFC 8259, is printable ASCII
   and has lower-case digits, among those that are no longer.
   */
  lemma PrintedForm(t: seq<CodeUnit>, x: seq<CodeUnit>)
    requires Printable(t) && LowerDigits(t) && Unescape(t) == Some(x)
    ensures Printable(EscapeAll(x)) && LowerDigits(EscapeAll(x)) && Unescape(EscapeAll(x)) == Some(x)
    ensures t == EscapeAll(x) <==> |t| <= |EscapeAll(x)|
  {
    hide ReadChar, EscapeUnit;
    OnlyPrintable(x);
    PrintsLowerDigits(x);
    RoundTrip(x);
    ShortestForm(t, x);
    if |t| <= |EscapeAll(x)| {
      OnlyForm(t, x);
    }
  }
}
