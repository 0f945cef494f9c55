/**
 `decodeBase64` as scripts/wasm2js.js puts it in front of its output, against the encoding of
 section 4 of RFC 4648.
 */
module Base64 {
  import opened MachineInts

  // ---- The standard's encoding ----------------------------------------------------------

  /** Table 1 of the RFC. */
  function Digit(d: nat): char
    requires d < 64
  {
    if d < 26 then 'A' + d as char
    else if d < 52 then 'a' + (d - 26) as char
    else if d < 62 then '0' + (d - 52) as char
    else if d == 62 then '+' else '/'
  }

  /** The 24 bits of up to three bytes; missing bytes count as zero. */
  function Packed(bytes: seq<Byte>): (group: nat)
    requires 1 <= |bytes| <= 3
    ensures group < 0x100_0000
  {
    var a: int := bytes[0];
    var b: int := if |bytes| > 1 then bytes[1] else 0;
    var c: int := if |bytes| > 2 then bytes[2] else 0;
    a * 0x1_0000 + b * 0x100 + c
  }

  /** The digits of 24 bits; those that no byte reaches are replaced by padding. */
  function Digits(group: nat, count: nat): (text: string)
    requires group < 0x100_0000
    ensures |text| == 4
  {
    [ Digit(group / 0x4_0000),
      Digit(group / 4096 % 64),
      if count > 1 then Digit(group / 64 % 64) else '=',
      if count > 2 then Digit(group % 64) else '=' ]
  }

  function EncodeGroup(bytes: seq<Byte>): (text: string)
    requires 1 <= |bytes| <= 3
    ensures |text| == 4
  {
    Digits(Packed(bytes), |bytes|)
  }

  function Encode(bytes: seq<Byte>): string {
    if bytes == [] then []
    else if |bytes| <= 3 then EncodeGroup(bytes)
    else EncodeGroup(bytes[..3]) + Encode(bytes[3..])
  }

  // ---- The decoder ----------------------------------------------------------------------

  const UPPER := "ABCDEFGHIJKLMNOPQRSTUVWXYZ"
  const LOWER := "abcdefghijklmnopqrstuvwxyz"
  const DIGITS := "0123456789"

  /** keyStr */
  const KEY := UPPER + LOWER + DIGITS + "+/="

  predicate Kept(c: char) {
    'A' <= c <= 'Z' || 'a' <= c <= 'z' || '0' <= c <= '9' || c == '+' || c == '/' || c == '='
  }

  /** The input without the characters that are neither in the alphabet nor padding. */
  function Filtered(input: string): string {
    if input == [] then []
    else (if Kept(input[0]) then [input[0]] else []) + Filtered(input[1..])
  }

  /** The first position of `c` from `k` on; the length if there is none. */
  function IndexFrom(s: string, c: char, k: nat): (i: nat)
    requires k <= |s|
    ensures k <= i <= |s| && (i < |s| ==> s[i] == c) && forall j :: k <= j < i ==> s[j] != c
    decreases |s| - k
  {
    if k == |s| || s[k] == c then k else IndexFrom(s, c, k + 1)
  }

  /** The code of a character; past the end the empty string is looked for, and found at position 0. */
  function Code(input: string, i: nat): nat {
    if i < |input| then IndexFrom(KEY, input[i], 0) else 0
  }

  /** The characters that one group of four codes contributes. */
  function Group(enc1: nat, enc2: nat, enc3: nat, enc4: nat): seq<nat> {
    [BitOr(enc1 * 4, enc2 / 16)]
    + (if enc3 != 64 then [BitOr(BitAnd(enc2, 15) * 16, enc3 / 4)] else [])
    + (if enc4 != 64 then [BitOr(BitAnd(enc3, 3) * 64, enc4)] else [])
  }

  function GroupAt(input: string, i: nat): seq<nat> {
    Group(Code(input, i), Code(input, i + 1), Code(input, i + 2), Code(input, i + 3))
  }

  /** One group at least, also of an empty input. */
  function DecodedFrom(input: string, i: nat): seq<nat>
    decreases |input| - i
  {
    GroupAt(input, i) + if i + 4 < |input| then DecodedFrom(input, i + 4) else []
  }

  lemma DecodedStep(input: string, i: nat)
    ensures i + 4 < |input| ==> DecodedFrom(input, i) == GroupAt(input, i) + DecodedFrom(input, i + 4)
    ensures i + 4 >= |input| ==> DecodedFrom(input, i) == GroupAt(input, i)
  {
    hide GroupAt;
  }

  method DecodeBase64(input: string) returns (output: seq<nat>)
    ensures output == DecodedFrom(Filtered(input), 0)
    ensures forall bytes | bytes != [] && Interspersed(input, Encode(bytes)) :: output == bytes
  {
    hide Code, BitOr, BitAnd, DecodedFrom, Filtered, Interspersed, Encode;
    EveryInterspersed(input);
    var kept := Filtered(input);
    output := [];
    var i := 0;
    var more := true;
    while more
      invariant more ==> output + DecodedFrom(kept, i) == DecodedFrom(kept, 0)
      invariant !more ==> output == DecodedFrom(kept, 0)
      decreases more, |kept| - i
    {
      ghost var before := output;
      var enc1 := Code(kept, i);
      var enc2 := Code(kept, i + 1);
      var enc3 := Code(kept, i + 2);
      var enc4 := Code(kept, i + 3);
      var chr1 := BitOr(enc1 * 4, enc2 / 16);
      var chr2 := BitOr(BitAnd(enc2, 15) * 16, enc3 / 4);
      var chr3 := BitOr(BitAnd(enc3, 3) * 64, enc4);
      output := output + [chr1];
      if enc3 != 64 {
        output := output + [chr2];
      }
      if enc4 != 64 {
        output := output + [chr3];
      }
      assert output == before + GroupAt(kept, i);
      hide GroupAt;
      DecodedStep(kept, i);
      i := i + 4;
      more := i < |kept|;
    }
  }

  // ---- Codes ------------------------------------------------------------------------------

  lemma KeyIsAlphabet(d: nat)
    requires d < 64
    ensures |KEY| == 65 && KEY[64] == '='
    ensures KEY[d] == Digit(d)
  {
    if d < 26 {
      assert KEY[d] == UPPER[d];
    } else if d < 52 {
      assert KEY[d] == LOWER[d - 26];
    } else if d < 62 {
      assert KEY[d] == DIGITS[d - 52];
    } else {
      assert KEY[d] == "+/="[d - 62];
    }
  }

  lemma DigitInjective(c: nat, d: nat)
    requires c <= d < 64
    ensures Digit(c) != '=' && (c < d ==> Digit(c) != Digit(d))
  {
  }

  lemma CodeOfDigit(input: string, i: nat, d: nat)
    requires i < |input| && d < 64 && input[i] == Digit(d)
    ensures Code(input, i) == d
  {
    hide Digit;
    KeyIsAlphabet(d);
    IndexOf(d);
  }

  lemma IndexOf(d: nat)
    requires d < 65
    ensures |KEY| == 65 && IndexFrom(KEY, KEY[d], 0) == d
  {
    KeyIsAlphabet(0);
    hide Digit, IndexFrom;
    var k := IndexFrom(KEY, KEY[d], 0);
    if k < d {
      KeyIsAlphabet(k);
      if d < 64 {
        KeyIsAlphabet(d);
      }
      DigitInjective(k, if d < 64 then d else k);
    }
  }

  lemma CodeOfPad(input: string, i: nat)
    requires i < |input| && input[i] == '='
    ensures Code(input, i) == 64
  {
    IndexOf(64);
    KeyIsAlphabet(0);
  }

  // ---- One group ----------------------------------------------------------------------------

  lemma {:induction false} OrCommutes(x: nat, y: nat)
    ensures BitOr(x, y) == BitOr(y, x)
    decreases x
  {
    if x == 0 {
      assert y > 0 ==> y == 2 * (y / 2) + y % 2;
      OrZero(y);
    } else if y > 0 {
      OrCommutes(x / 2, y / 2);
    } else {
      OrZero(x);
    }
  }

  lemma {:induction false} OrZero(x: nat)
    ensures BitOr(x, 0) == x
  {
    if x > 0 {
      OrZero(x / 2);
    }
  }

  /** (high << n) | low, where p is 2^n */
  lemma Joined(high: nat, low: nat, n: nat, p: nat)
    requires p == Pow2(n) && low < p
    ensures BitOr(high * p, low) == high * p + low
  {
    hide BitOr, Pow2;
    OrCommutes(high * p, low);
    OrDisjoint(low, high, n);
  }

  lemma FirstChar(enc1: nat, enc2: nat)
    requires enc2 < 64
    ensures BitOr(enc1 * 4, enc2 / 16) == enc1 * 4 + enc2 / 16
  {
    assert Pow2(2) == 4;
    hide BitOr, Pow2;
    Joined(enc1, enc2 / 16, 2, 4);
  }

  lemma SecondChar(enc2: nat, enc3: nat)
    requires enc3 < 64
    ensures BitOr(BitAnd(enc2, 15) * 16, enc3 / 4) == enc2 % 16 * 16 + enc3 / 4
  {
    assert Pow2(4) == 16;
    hide BitOr, BitAnd, Pow2;
    AndLowOnes(enc2, 4);
    Joined(enc2 % 16, enc3 / 4, 4, 16);
  }

  lemma ThirdChar(enc3: nat, enc4: nat)
    requires enc4 < 64
    ensures BitOr(BitAnd(enc3, 3) * 64, enc4) == enc3 % 4 * 64 + enc4
  {
    assert Pow2(2) == 4 && Pow2(6) == 64;
    hide BitOr, BitAnd, Pow2;
    AndLowOnes(enc3, 2);
    Joined(enc3 % 4, enc4, 6, 64);
  }

  /** The four digits of a number below 64^4. */
  lemma Radix64(group: nat, d1: nat, d2: nat, d3: nat, d4: nat)
    requires d1 < 64 && d2 < 64 && d3 < 64 && d4 < 64
    requires group == ((d1 * 64 + d2) * 64 + d3) * 64 + d4
    ensures group / 0x4_0000 == d1 && group / 4096 % 64 == d2 && group / 64 % 64 == d3 && group % 64 == d4
  {
    DivModUnique(group, 64, (d1 * 64 + d2) * 64 + d3, d4);
    DivModUnique(group / 64, 64, d1 * 64 + d2, d3);
    DivModUnique(group, 4096, d1 * 64 + d2, d3 * 64 + d4);
    DivModUnique(d1 * 64 + d2, 64, d1, d2);
    DivModUnique(group, 0x4_0000, d1, (d2 * 64 + d3) * 64 + d4);
  }

  /** How the bits of three bytes are dealt to four codes, and back. */
  lemma Bits(a: nat, b: nat, c: nat, group: nat)
    requires a < 256 && b < 256 && c < 256 && group == a * 0x1_0000 + b * 0x100 + c
    ensures var d1, d2, d3, d4 := group / 0x4_0000, group / 4096 % 64, group / 64 % 64, group % 64;
            && d1 < 64
            && d1 * 4 + d2 / 16 == a
            && d2 % 16 * 16 + d3 / 4 == b
            && d3 % 4 * 64 + d4 == c
    ensures c == 0 ==> group % 64 == 0
    ensures b == c == 0 ==> group / 64 % 64 == 0
  {
    var d2, d3 := a % 4 * 16 + b / 16, b % 16 * 4 + c / 64;
    DivModUnique(d2, 16, a % 4, b / 16);
    DivModUnique(d3, 4, b % 16, c / 64);
    Radix64(group, a / 4, d2, d3, c % 64);
  }

  /** The codes of an encoded group. */
  lemma GroupCodes(input: string, i: nat, group: nat, count: nat)
    requires group < 0x100_0000 && i + 4 <= |input| && input[i..i + 4] == Digits(group, count)
    ensures Code(input, i) == group / 0x4_0000
    ensures Code(input, i + 1) == group / 4096 % 64
    ensures Code(input, i + 2) == if count > 1 then group / 64 % 64 else 64
    ensures Code(input, i + 3) == if count > 2 then group % 64 else 64
  {
    hide Code, Digit;
    var t := input[i..i + 4];
    assert input[i] == t[0] && input[i + 1] == t[1] && input[i + 2] == t[2] && input[i + 3] == t[3];
    CodeOfDigit(input, i, group / 0x4_0000);
    CodeOfDigit(input, i + 1, group / 4096 % 64);
    if count > 1 {
      CodeOfDigit(input, i + 2, group / 64 % 64);
    } else {
      CodeOfPad(input, i + 2);
    }
    if count > 2 {
      CodeOfDigit(input, i + 3, group % 64);
    } else {
      CodeOfPad(input, i + 3);
    }
  }

  lemma GroupDecodes(input: string, i: nat, bytes: seq<Byte>)
    requires 1 <= |bytes| <= 3 && i + 4 <= |input| && input[i..i + 4] == EncodeGroup(bytes)
    ensures GroupAt(input, i) == bytes
  {
    hide Code, BitOr, BitAnd, Digits;
    var a: int := bytes[0];
    var b: int := if |bytes| > 1 then bytes[1] else 0;
    var c: int := if |bytes| > 2 then bytes[2] else 0;
    var group := Packed(bytes);
    GroupCodes(input, i, group, |bytes|);
    Bits(a, b, c, group);
    FirstChar(group / 0x4_0000, group / 4096 % 64);
    SecondChar(group / 4096 % 64, group / 64 % 64);
    ThirdChar(group / 64 % 64, group % 64);
  }

  // ---- The whole text -------------------------------------------------------------------------

  lemma {:induction false} EncodeLength(bytes: seq<Byte>)
    ensures |Encode(bytes)| % 4 == 0
    ensures |bytes| > 3 ==> |Encode(bytes)| > 4
    ensures 0 < |bytes| ==> |Encode(bytes)| >= 4
  {
    hide EncodeGroup;
    if |bytes| > 3 {
      EncodeLength(bytes[3..]);
    }
  }

  lemma {:induction false} DecodesFrom(input: string, i: nat, bytes: seq<Byte>)
    requires bytes != [] && i <= |input| && input[i..] == Encode(bytes)
    ensures DecodedFrom(input, i) == bytes
    decreases |bytes|
  {
    hide GroupAt, EncodeGroup;
    EncodeLength(bytes);
    if |bytes| > 3 {
      assert input[i..i + 4] == input[i..][..4] == EncodeGroup(bytes[..3]);
      assert input[i + 4..] == input[i..][4..] == Encode(bytes[3..]);
      GroupDecodes(input, i, bytes[..3]);
      DecodesFrom(input, i + 4, bytes[3..]);
      assert bytes == bytes[..3] + bytes[3..];
    } else {
      assert input[i..i + 4] == input[i..];
      GroupDecodes(input, i, bytes);
    }
  }

  lemma DigitKept(d: nat)
    requires d < 64
    ensures Kept(Digit(d))
  {
  }

  lemma {:induction false} AllKept(s: string)
    requires forall k :: 0 <= k < |s| ==> Kept(s[k])
    ensures Filtered(s) == s
  {
    hide Kept;
    if s != [] {
      AllKept(s[1..]);
    }
  }

  lemma GroupKept(bytes: seq<Byte>)
    requires 1 <= |bytes| <= 3
    ensures forall k :: 0 <= k < 4 ==> Kept(EncodeGroup(bytes)[k])
  {
    var group := Packed(bytes);
    assert Kept('=');
    hide Kept, Digit, Packed;
    DigitKept(group / 0x4_0000);
    DigitKept(group / 4096 % 64);
    DigitKept(group / 64 % 64);
    DigitKept(group % 64);
  }

  lemma {:induction false} EncodeKept(bytes: seq<Byte>)
    ensures forall k :: 0 <= k < |Encode(bytes)| ==> Kept(Encode(bytes)[k])
  {
    hide EncodeGroup, Kept;
    if |bytes| > 3 {
      GroupKept(bytes[..3]);
      EncodeKept(bytes[3..]);
    } else if bytes != [] {
      GroupKept(bytes);
    }
  }

  /** The encoding of the empty sequence is empty, and what the decoder makes of it is not. */
  lemma EmptyInput()
    ensures DecodedFrom(Filtered(Encode([])), 0) == [0, 0, 0]
  {
    assert BitAnd(0, 15) == 0 && BitAnd(0, 3) == 0 && BitOr(0, 0) == 0;
  }

  /**
   Any text that the filter reduces to the encoding of `bytes` decodes to `bytes`, provided there
   is at least one byte.
   */
  lemma DecodesEncoding(text: string, bytes: seq<Byte>)
    requires Filtered(text) == Encode(bytes)
    ensures DecodedFrom(Filtered(text), 0) == bytes <==> bytes != []
  {
    hide Filtered, Encode, DecodedFrom;
    if bytes == [] {
      EmptyInput();
      EncodeKept(bytes);
      AllKept(Encode(bytes));
    } else {
      DecodesFrom(Filtered(text), 0, bytes);
    }
  }

  /** The plain encoding is such a text. */
  lemma EncodingUnfiltered(bytes: seq<Byte>)
    ensures Filtered(Encode(bytes)) == Encode(bytes)
  {
    EncodeKept(bytes);
    AllKept(Encode(bytes));
  }

  /** A text whose length is no multiple of four is read as if it ended in `A`. */
  lemma {:induction false} MissingReadAsA(input: string, i: nat)
    requires i <= |input| && (|input| - i) % 4 != 0
    ensures DecodedFrom(input + "A", i) == DecodedFrom(input, i)
    decreases |input| - i
  {
    hide IndexFrom, Group;
    var longer := input + "A";
    assert KEY[0] == Digit(0) by { KeyIsAlphabet(0); }
    IndexOf(0);
    forall k: nat | k <= |input| ensures Code(longer, k) == Code(input, k) {
      assert k < |input| ==> longer[k] == input[k];
      assert k == |input| ==> longer[k] == KEY[0];
    }
    assert GroupAt(longer, i) == GroupAt(input, i);
    if i + 4 < |input| {
      MissingReadAsA(input, i + 4);
    }
  }

  // ---- Characters outside the alphabet --------------------------------------------------------

  lemma DigitOf(c: char) returns (d: nat)
    requires 'A' <= c <= 'Z' || 'a' <= c <= 'z' || '0' <= c <= '9' || c == '+' || c == '/'
    ensures d < 64 && Digit(d) == c
  {
    d := if 'A' <= c <= 'Z' then (c - 'A') as int
         else if 'a' <= c <= 'z' then (c - 'a') as int + 26
         else if '0' <= c <= '9' then (c - '0') as int + 52
         else if c == '+' then 62 else 63;
  }

  /** The filter keeps exactly the characters of the alphabet and the padding. */
  lemma KeepsKey(c: char)
    ensures Kept(c) <==> c in KEY
  {
    KeyIsAlphabet(0);
    if Kept(c) && c != '=' {
      var d := DigitOf(c);
      KeyIsAlphabet(d);
    }
    if c in KEY {
      var d :| 0 <= d < |KEY| && KEY[d] == c;
      if d < 64 {
        KeyIsAlphabet(d);
        DigitKept(d);
      }
    }
  }

  lemma {:induction false} FilterConcat(a: string, b: string)
    ensures Filtered(a + b) == Filtered(a) + Filtered(b)
    decreases |a|
  {
    if a == "" {
      assert a + b == b;
    } else {
      FilterFirst(a);
      FilterFirst(a + b);
      hide Kept, Filtered;
      assert (a + b)[0] == a[0] && (a + b)[1..] == a[1..] + b;
      FilterConcat(a[1..], b);
    }
  }

  /** Characters outside the alphabet do not matter. */
  lemma ForeignIgnored(a: string, c: char, b: string)
    requires c !in KEY
    ensures DecodedFrom(Filtered(a + [c] + b), 0) == DecodedFrom(Filtered(a + b), 0)
  {
    KeepsKey(c);
    assert Filtered([c]) == [] by {
      assert [c][1..] == "";
    }
    hide Filtered, Kept, DecodedFrom;
    FilterConcat(a + [c], b);
    FilterConcat(a, [c]);
    FilterConcat(a, b);
    assert Filtered(a) + [] == Filtered(a);
  }

  /** The text is `code` with characters outside the alphabet put anywhere in it. */
  ghost predicate Interspersed(text: string, code: string)
    decreases |text|
  {
    if text == "" then code == ""
    else if text[0] in KEY then code != "" && code[0] == text[0] && Interspersed(text[1..], code[1..])
    else Interspersed(text[1..], code)
  }

  lemma {:induction false} FilterGathers(text: string, code: string)
    requires Interspersed(text, code)
    ensures Filtered(text) == code
    decreases |text|
  {
    if text != "" {
      KeepsKey(text[0]);
      FilterFirst(text);
      hide Kept, Filtered, IndexFrom;
      if text[0] in KEY {
        FilterGathers(text[1..], code[1..]);
        assert code == [code[0]] + code[1..];
      } else {
        FilterGathers(text[1..], code);
      }
    }
  }

  lemma FilterFirst(text: string)
    requires text != ""
    ensures Filtered(text) == if Kept(text[0]) then [text[0]] + Filtered(text[1..]) else Filtered(text[1..])
  {
    hide Kept;
    assert [] + Filtered(text[1..]) == Filtered(text[1..]);
  }

  /** The encoding of some bytes, with anything outside the alphabet in it, decodes to them. */
  lemma InterspersedDecodes(text: string, bytes: seq<Byte>)
    requires bytes != [] && Interspersed(text, Encode(bytes))
    ensures DecodedFrom(Filtered(text), 0) == bytes
  {
    hide Filtered, Encode, DecodedFrom, Interspersed;
    FilterGathers(text, Encode(bytes));
    DecodesEncoding(text, bytes);
  }

  lemma EveryInterspersed(text: string)
    ensures forall bytes | bytes != [] && Interspersed(text, Encode(bytes)) :: DecodedFrom(Filtered(text), 0) == bytes
  {
    hide Filtered, Encode, DecodedFrom, Interspersed;
    forall bytes | bytes != [] && Interspersed(text, Encode(bytes)) ensures DecodedFrom(Filtered(text), 0) == bytes {
      InterspersedDecodes(text, bytes);
    }
  }
}
