/** Text as the bytes of UTF-8 (section 3 of RFC 3629), in which the generated C++ is compiled and run. */
module Utf8 {
  import opened MachineInts

  function EncodeChar(c: char): (bs: seq<Byte>)
    ensures 1 <= |bs| <= 4
    ensures |bs| == 1 <==> c as int < 0x80
  {
    var n := c as int;
    if n < 0x80 then [n]
    else if n < 0x800 then [0xC0 + n / 0x40, 0x80 + n % 0x40]
    else if n < 0x1_0000 then [0xE0 + n / 0x1000, 0x80 + n / 0x40 % 0x40, 0x80 + n % 0x40]
    else [0xF0 + n / 0x4_0000, 0x80 + n / 0x1000 % 0x40, 0x80 + n / 0x40 % 0x40, 0x80 + n % 0x40]
  }

  function Encode(s: string): seq<Byte> {
    if s == "" then [] else EncodeChar(s[0]) + Encode(s[1..])
  }

  /** `n` followed by the six bits of each continuation byte. */
  function Continued(n: int, bs: seq<Byte>): int
    decreases |bs|
  {
    if bs == [] then n
    else
      var b: int := bs[0];
      Continued(n * 0x40 + b - 0x80, bs[1..])
  }

  /** The bits of a character, from its bytes: a lead byte that tells their number, and continuation bytes. */
  lemma CharBits(c: char)
    ensures var bs, n := EncodeChar(c), |EncodeChar(c)|;
            var lead := if n == 1 then 0 else if n == 2 then 0xC0 else if n == 3 then 0xE0 else 0xF0;
            && lead <= bs[0] < (if n == 1 then 0x80 else if n == 2 then 0xE0 else if n == 3 then 0xF0 else 0xF8)
            && (forall k :: 0 < k < |bs| ==> 0x80 <= bs[k] < 0xC0)
            && c as int == Continued(bs[0] - lead, bs[1..])
            && (n > 1 ==> c as int >= if n == 2 then 0x80 else if n == 3 then 0x800 else 0x1_0000)
  {
    Digits64(c as int);
    var bs := EncodeChar(c);
    match |bs| {
      case 1 =>
      case 2 => assert bs[1..] == [bs[1]] && Continued(0, []) == 0;
      case 3 => ContinuedTwice(bs[0] as int - 0xE0, bs[1..]);
      case _ =>
        var n: int := bs[0];
        assert Continued(n - 0xF0, bs[1..]) == Continued((n - 0xF0) * 0x40 + bs[1] as int - 0x80, bs[2..]) by {
          assert bs[1..][1..] == bs[2..];
        }
        ContinuedTwice((n - 0xF0) * 0x40 + bs[1] as int - 0x80, bs[2..]);
    }
  }

  lemma ContinuedTwice(n: int, bs: seq<Byte>)
    requires |bs| == 2
    ensures var a: int, b: int := bs[0], bs[1];
            Continued(n, bs) == (n * 0x40 + a - 0x80) * 0x40 + b - 0x80
  {
    var a: int, b: int := bs[0], bs[1];
    var m := n * 0x40 + a - 0x80;
    assert Continued(n, bs) == Continued(m, bs[1..]);
    assert bs[1..][0] == b && Continued(m, bs[1..]) == Continued(m * 0x40 + b - 0x80, bs[1..][1..]);
    assert bs[1..][1..] == [];
  }

  predicate Ascii(s: string) {
    forall i :: 0 <= i < |s| ==> s[i] as int < 0x80
  }

  lemma AsciiConcat(a: string, b: string)
    ensures Ascii(a + b) <==> Ascii(a) && Ascii(b)
  {
    if Ascii(a + b) {
      assert forall i :: 0 <= i < |a| ==> a[i] == (a + b)[i];
      assert forall i :: 0 <= i < |b| ==> b[i] == (a + b)[|a| + i];
    }
  }

  // ---- Lengths and places -----------------------------------------------------------------

  lemma {:induction false} EncodeConcat(a: string, b: string)
    ensures Encode(a + b) == Encode(a) + Encode(b)
    decreases |a|
  {
    hide EncodeChar;
    if a == "" {
      assert a + b == b;
    } else {
      assert (a + b)[1..] == a[1..] + b;
      EncodeConcat(a[1..], b);
    }
  }

  /** There are as many bytes as characters exactly for ASCII text, and else more. */
  lemma {:induction false} EncodeLength(s: string)
    ensures |Encode(s)| >= |s|
    ensures |Encode(s)| == |s| <==> Ascii(s)
    decreases |s|
  {
    hide EncodeChar;
    if s != "" {
      EncodeLength(s[1..]);
      assert Ascii(s) <==> s[0] as int < 0x80 && Ascii(s[1..]) by {
        assert forall i :: 0 < i < |s| ==> s[i] == s[1..][i - 1];
        assert forall i :: 0 <= i < |s| - 1 ==> s[1..][i] == s[i + 1];
      }
    }
  }

  /** Behind an ASCII beginning, the byte at the same place is the first of what follows. */
  lemma ByteAfter(pre: string, s: string)
    requires Ascii(pre) && s != ""
    ensures var bs := Encode(pre + s); |pre| < |bs| && bs[|pre|] == EncodeChar(s[0])[0]
  {
    hide EncodeChar;
    EncodeConcat(pre, s);
    EncodeLength(pre);
    EncodeLength(s);
  }

  // ---- No two texts have the same bytes -------------------------------------------------------

  lemma SameLength(c: char, d: char)
    requires EncodeChar(c)[0] == EncodeChar(d)[0]
    ensures |EncodeChar(c)| == |EncodeChar(d)|
  {
  }

  lemma Digits64(n: nat)
    ensures n == n / 0x40 * 0x40 + n % 0x40
    ensures n == n / 0x1000 * 0x1000 + n / 0x40 % 0x40 * 0x40 + n % 0x40
    ensures n == n / 0x4_0000 * 0x4_0000 + n / 0x1000 % 0x40 * 0x1000 + n / 0x40 % 0x40 * 0x40 + n % 0x40
  {
    assert n / 0x40 / 0x40 == n / 0x1000 && n / 0x1000 / 0x40 == n / 0x4_0000;
  }

  lemma CharInjective(c: char, d: char)
    requires EncodeChar(c) == EncodeChar(d)
    ensures c == d
  {
    Digits64(c as int);
    Digits64(d as int);
    var x, y := EncodeChar(c), EncodeChar(d);
    assert x[0] == y[0];
    if |x| > 1 {
      assert x[1] == y[1];
      if |x| > 2 {
        assert x[2] == y[2];
        if |x| > 3 {
          assert x[3] == y[3];
        }
      }
    }
    assert c as int == d as int;
  }

  lemma {:induction false} EncodeInjective(a: string, b: string)
    requires Encode(a) == Encode(b)
    ensures a == b
    decreases |a|
  {
    hide EncodeChar;
    if a != "" && b != "" {
      var x, y := EncodeChar(a[0]), EncodeChar(b[0]);
      assert (x + Encode(a[1..]))[0] == x[0] && (y + Encode(b[1..]))[0] == y[0];
      SameLength(a[0], b[0]);
      assert x == Encode(a)[..|x|] && y == Encode(b)[..|y|];
      CharInjective(a[0], b[0]);
      assert Encode(a[1..]) == Encode(a)[|x|..] && Encode(b[1..]) == Encode(b)[|y|..];
      EncodeInjective(a[1..], b[1..]);
      assert a == [a[0]] + a[1..] && b == [b[0]] + b[1..];
    }
  }
}
