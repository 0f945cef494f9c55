/** Fixed-width integers as C++ computes with them, written out over unbounded integers. */
module MachineInts {
  type Byte = b: nat | b < 256

  function Pow2(n: nat): (p: nat)
    ensures p > 0
  {
    if n == 0 then 1 else 2 * Pow2(n - 1)
  }

  lemma {:induction false} Pow2Add(a: nat, b: nat)
    ensures Pow2(a + b) == Pow2(a) * Pow2(b)
  {
    if b > 0 {
      Pow2Add(a, b - 1);
      assert Pow2(a + b) == 2 * Pow2(a + (b - 1));
    }
  }

  lemma Pow2Plus7(n: nat)
    ensures Pow2(n + 7) == 128 * Pow2(n)
  {
    Pow2Add(n, 7);
  }

  lemma {:induction false} Pow2Monotone(a: nat, b: nat)
    requires a <= b
    ensures Pow2(a) <= Pow2(b)
    decreases b - a
  {
    if a < b {
      Pow2Monotone(a + 1, b);
    }
  }

  // ---- Bitwise operators ----------------------------------------------------------

  function BitAnd(x: nat, y: nat): nat
    decreases x
  {
    if x == 0 || y == 0 then 0
    else 2 * BitAnd(x / 2, y / 2) + if x % 2 == 1 && y % 2 == 1 then 1 else 0
  }

  function BitOr(x: nat, y: nat): nat
    decreases x
  {
    if x == 0 then y
    else 2 * BitOr(x / 2, y / 2) + if x % 2 == 1 || y % 2 == 1 then 1 else 0
  }

  /** Masking with `n` low ones keeps the remainder modulo 2^n. */
  lemma {:induction false} AndLowOnes(x: nat, n: nat)
    ensures BitAnd(x, Pow2(n) - 1) == x % Pow2(n)
    decreases n
  {
    if n > 0 {
      var p := Pow2(n - 1);
      AndOdd(x, p - 1);
      assert Pow2(n) - 1 == 2 * (p - 1) + 1;
      hide BitAnd, Pow2;
      AndLowOnes(x / 2, n - 1);
      HalveRemainder(x, p);
    }
  }

  lemma AndOdd(x: nat, y: nat)
    ensures BitAnd(x, 2 * y + 1) == 2 * BitAnd(x / 2, y) + x % 2
  {
    assert (2 * y + 1) / 2 == y && (2 * y + 1) % 2 == 1;
  }

  lemma HalveRemainder(x: nat, p: nat)
    requires p > 0
    ensures x % (2 * p) == 2 * ((x / 2) % p) + x % 2
  {
    var q, r := (x / 2) / p, (x / 2) % p;
    assert x / 2 == q * p + r;
    assert x == q * (2 * p) + (2 * r + x % 2) by {
      assert x == 2 * (q * p + r) + x % 2;
    }
    DivModUnique(x, 2 * p, q, 2 * r + x % 2);
  }

  lemma MulBound(a: int, d: nat)
    requires a >= 1
    ensures a * d >= d
  {
    assert a * d == (a - 1) * d + d;
  }

  lemma DivModUnique(x: int, d: int, q: int, r: int)
    requires d > 0 && x == q * d + r && 0 <= r < d
    ensures x / d == q && x % d == r
  {
    var q' := x / d;
    var r' := x - q' * d;
    assert 0 <= r' < d && x % d == r';
    assert (q - q') * d == r' - r && (q' - q) * d == r - r';
    if q > q' {
      MulBound(q - q', d);
    } else if q < q' {
      MulBound(q' - q, d);
    }
  }

  /** The bits of `c` moved up by `n` places. */
  function Up(c: nat, n: nat): nat
    decreases n
  {
    if n == 0 then c else 2 * Up(c, n - 1)
  }

  /** The bits of `x` moved down by `n` places. */
  function Down(x: nat, n: nat): nat
    decreases n
  {
    if n == 0 then x else Down(x / 2, n - 1)
  }

  /** A bit of the conjunction is set if it is in both. */
  lemma {:induction false} AndBit(x: nat, y: nat, i: nat)
    ensures Down(BitAnd(x, y), i) % 2 == 1 <==> Down(x, i) % 2 == 1 && Down(y, i) % 2 == 1
    decreases i
  {
    if i > 0 {
      hide BitAnd;
      AndBit(x / 2, y / 2, i - 1);
      AndHalf(x, y);
    }
  }

  lemma AndHalf(x: nat, y: nat)
    ensures BitAnd(x, y) / 2 == BitAnd(x / 2, y / 2)
  {
    if x == 0 || y == 0 {
    } else if x / 2 == 0 || y / 2 == 0 {
    }
  }

  /** A bit of the disjunction is set if it is in one of them. */
  lemma {:induction false} OrBit(x: nat, y: nat, i: nat)
    ensures Down(BitOr(x, y), i) % 2 == 1 <==> Down(x, i) % 2 == 1 || Down(y, i) % 2 == 1
    decreases i
  {
    OrHalf(x, y);
    hide BitOr;
    if i > 0 {
      OrBit(x / 2, y / 2, i - 1);
    }
  }

  lemma OrHalf(x: nat, y: nat)
    ensures BitOr(x, y) / 2 == BitOr(x / 2, y / 2)
    ensures BitOr(x, y) % 2 == 1 <==> x % 2 == 1 || y % 2 == 1
  {
    if x == 0 {
      assert BitOr(0, y) == y && BitOr(0, y / 2) == y / 2;
    }
  }

  /** A mask whose `n` low bits are zero selects from the bits above. */
  lemma {:induction false} AndUp(x: nat, c: nat, n: nat)
    ensures BitAnd(x, Up(c, n)) == Up(BitAnd(Down(x, n), c), n)
    decreases n
  {
    if n > 0 {
      AndEven(x, Up(c, n - 1));
      AndUp(x / 2, c, n - 1);
    }
  }

  lemma {:induction false} AndEven(x: nat, y: nat)
    ensures BitAnd(x, 2 * y) == 2 * BitAnd(x / 2, y)
  {
    assert (2 * y) / 2 == y && (2 * y) % 2 == 0;
  }

  lemma {:induction false} AndOne(x: nat)
    ensures BitAnd(x, 1) == x % 2
  {
    assert x != 0 ==> BitAnd(x / 2, 0) == 0;
  }

  /** The two flags and the payload of a LEB byte. */
  lemma ByteFlags(b: Byte)
    ensures BitAnd(b, 128) == 0 <==> b < 128
    ensures BitAnd(b, 64) == 0 <==> b % 128 < 64
    ensures BitAnd(b, 127) == b % 128
  {
    assert Up(1, 7) == 128 && Up(1, 6) == 64;
    AndUp(b, 1, 7);
    AndUp(b, 1, 6);
    DownBits(b);
    AndOne(b / 128);
    AndOne(b / 64);
    UpZero(BitAnd(b / 128, 1), 7);
    UpZero(BitAnd(b / 64, 1), 6);
    assert Pow2(7) == 128;
    AndLowOnes(b, 7);
  }

  lemma DownBits(b: Byte)
    ensures Down(b, 7) == b / 128 && Down(b, 6) == b / 64
  {
    assert Down(b, 7) == Down(b / 2 / 2 / 2 / 2, 3);
    assert Down(b, 6) == Down(b / 2 / 2 / 2 / 2, 2);
  }

  lemma {:induction false} UpZero(c: nat, n: nat)
    ensures Up(c, n) == 0 <==> c == 0
  {
    if n > 0 {
      UpZero(c, n - 1);
    }
  }

  /** Values that occupy different bits are combined by addition. */
  lemma {:induction false} OrDisjoint(x: nat, c: nat, n: nat)
    requires x < Pow2(n)
    ensures BitOr(x, c * Pow2(n)) == x + c * Pow2(n)
    decreases n
  {
    if n > 0 && x > 0 {
      var p := Pow2(n - 1);
      assert c * Pow2(n) == 2 * (c * p);
      OrDisjoint(x / 2, c, n - 1);
    }
  }

  // ---- Integer types ----------------------------------------------------------------

  datatype IntType = IntType(signed: bool, bits: nat)

  /** The two's complement bits of a value. */
  function Pattern(t: IntType, x: int): nat {
    x % Pow2(t.bits)
  }

  function FromPattern(t: IntType, p: nat): int {
    if t.signed && t.bits > 0 && p >= Pow2(t.bits - 1) then p - Pow2(t.bits) else p
  }

  /** x << s, keeping the bits that fit */
  function ShiftLeft(t: IntType, x: int, s: nat): int {
    FromPattern(t, Pattern(t, x) * Pow2(s) % Pow2(t.bits))
  }

  /** x >> s: arithmetic for signed types, logical for unsigned ones */
  function ShiftRight(t: IntType, x: int, s: nat): int {
    x / Pow2(s)
  }

  function Or(t: IntType, x: int, y: int): int {
    FromPattern(t, BitOr(Pattern(t, x), Pattern(t, y)))
  }

  function And(t: IntType, x: int, y: int): int {
    FromPattern(t, BitAnd(Pattern(t, x), Pattern(t, y)))
  }

  // ---- Byte sequences -----------------------------------------------------------------

  function Zeros(n: nat): (zeros: seq<Byte>)
    ensures |zeros| == n
  {
    seq(n, _ => 0)
  }

  /** `before` with the bytes from `at` on replaced by `written`. */
  function Overwritten(before: seq<Byte>, at: nat, written: seq<Byte>): (after: seq<Byte>)
    requires at + |written| <= |before|
    ensures |after| == |before|
  {
    before[..at] + written + before[at + |written|..]
  }

  function WithByte(s: seq<Byte>, i: nat, b: Byte): seq<Byte>
    requires i < |s|
  {
    s[i := b]
  }

  /** `bytes` is `before` with the first `k` bytes of the encoding put at `at`. */
  ghost predicate Written(before: seq<Byte>, at: nat, encoding: seq<Byte>, k: nat, bytes: seq<Byte>) {
    k <= |encoding| && at + |encoding| <= |before| && bytes == Overwritten(before, at, encoding[..k])
  }

  lemma WriteNothing(before: seq<Byte>, at: nat, encoding: seq<Byte>)
    requires at + |encoding| <= |before|
    ensures Written(before, at, encoding, 0, before)
  {
  }

  lemma WriteNext(before: seq<Byte>, at: nat, encoding: seq<Byte>, k: nat, bytes: seq<Byte>)
    requires k < |encoding| && Written(before, at, encoding, k, bytes)
    ensures at + k < |bytes| && Written(before, at, encoding, k + 1, WithByte(bytes, at + k, encoding[k]))
  {
  }

  lemma WrittenAll(before: seq<Byte>, at: nat, encoding: seq<Byte>, bytes: seq<Byte>)
    requires Written(before, at, encoding, |encoding|, bytes)
    ensures at + |encoding| <= |before| && bytes == Overwritten(before, at, encoding)
  {
    assert encoding[..|encoding|] == encoding;
  }
}
