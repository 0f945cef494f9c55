/** What the masks and shifts of `LEB::read` in src/wasm-binary.h compute. */
module LebBits {
  import opened Wrappers
  import opened MachineInts
  import opened IntegerGrammar

  // ---- Masks --------------------------------------------------------------------------

  lemma {:induction false} UpOnes(m: nat, n: nat)
    ensures Up(Pow2(m) - 1, n) == Pow2(m + n) - Pow2(n)
    decreases n
  {
    if n > 0 {
      UpOnes(m, n - 1);
      assert Pow2(m + n) == 2 * Pow2(m + (n - 1));
    }
  }

  lemma {:induction false} DownBound(x: nat, a: nat, n: nat)
    requires x < Pow2(a + n)
    ensures Down(x, n) < Pow2(a)
    decreases n
  {
    if n > 0 {
      assert Pow2(a + n) == 2 * Pow2(a + (n - 1));
      DownBound(x / 2, a, n - 1);
    }
  }

  lemma {:induction false} UpDown(x: nat, n: nat)
    ensures Up(Down(x, n), n) == x - x % Pow2(n)
    decreases n
  {
    if n > 0 {
      UpDown(x / 2, n - 1);
      HalveRemainder(x, Pow2(n - 1));
    }
  }

  lemma {:induction false} AndCommutes(x: nat, y: nat)
    ensures BitAnd(x, y) == BitAnd(y, x)
    decreases x
  {
    if x > 0 && y > 0 {
      AndCommutes(x / 2, y / 2);
    }
  }

  lemma SmallRemainder(x: nat, p: nat)
    requires x < p
    ensures x % p == x
  {
  }

  /** Selecting `m` bits above the lowest `n` from a number that has no others. */
  lemma AndMiddle(x: nat, m: nat, n: nat)
    requires x < Pow2(m + n)
    ensures BitAnd(x, Up(Pow2(m) - 1, n)) == x - x % Pow2(n)
  {
    hide BitAnd, Up, Down, Pow2;
    AndUp(x, Pow2(m) - 1, n);
    AndLowOnes(Down(x, n), m);
    DownBound(x, m, n);
    SmallRemainder(Down(x, n), Pow2(m));
    UpDown(x, n);
  }

  /** The complement of the payload mask, cut to `low` ones, keeps those beyond the type. */
  lemma ComplementMask(bits: nat, n: nat, low: nat)
    requires n <= bits && low < Pow2(bits) && Pow2(n) <= Pow2(bits)
    ensures BitAnd(Pow2(bits) - Pow2(n), low) == low - low % Pow2(n)
  {
    hide BitAnd, Up, Down, Pow2;
    UpOnes(bits - n, n);
    AndCommutes(Pow2(bits) - Pow2(n), low);
    AndMiddle(low, bits - n, n);
  }

  lemma Low127(bits: nat, n: nat)
    requires 7 <= bits
    ensures 127 < Pow2(bits)
    ensures 127 - 127 % Pow2(n) == if n >= 7 then 0 else 128 - Pow2(n)
    ensures n < 7 ==> Pow2(n) < 128
  {
    Pow2Monotone(7, bits);
    if n >= 7 {
      Pow2Monotone(7, n);
      SmallRemainder(127, Pow2(n));
    } else {
      assert Pow2(0) == 1 && Pow2(1) == 2 && Pow2(2) == 4 && Pow2(3) == 8;
      assert Pow2(4) == 16 && Pow2(5) == 32 && Pow2(6) == 64;
    }
  }

  /** The payload bits beyond the type. */
  lemma UnusedBits(payload: nat, n: nat)
    requires payload < 128 && n < 7 && Pow2(n) <= 128
    ensures BitAnd(payload, 128 - Pow2(n)) == payload - payload % Pow2(n)
  {
    assert Pow2(7) == 128;
    hide BitAnd, Up, Down, Pow2;
    UpOnes(7 - n, n);
    AndMiddle(payload, 7 - n, n);
  }

  /** What the masks of one reading step select, when `n` bits of the type remain. */
  lemma PayloadMasks(bits: nat, n: nat, b: Byte)
    requires 8 <= bits && 0 < n <= bits && Pow2(n) <= Pow2(bits)
    ensures BitAnd(b, 127) == b % 128
    ensures BitAnd(Pow2(n) - 1, b % 128) == Significant(b, n) < Pow2(n)
    ensures var unusedMask := BitAnd(Pow2(bits) - 1 - (Pow2(n) - 1), 127);
            && unusedMask == (if n >= 7 then 0 else 128 - Pow2(n))
            && BitAnd(b % 128, unusedMask) == if n >= 7 then 0 else b % 128 - Significant(b, n)
    ensures n < 7 ==> Pow2(n) < 128
  {
    hide BitAnd, Pow2;
    ByteFlags(b);
    AndCommutes(Pow2(n) - 1, b % 128);
    AndLowOnes(b % 128, n);
    Low127(bits, n);
    ComplementMask(bits, n, 127);
    if n >= 7 {
      AndZero(b % 128);
    } else {
      UnusedBits(b % 128, n);
    }
  }

  lemma AndZero(x: nat)
    ensures BitAnd(x, 0) == 0
  {
  }

  // ---- The last byte --------------------------------------------------------------------

  /** The payload bits that are within the type, when `n` bits of the type remain. */
  function Significant(b: Byte, n: nat): nat {
    (b % 128) % Pow2(n)
  }

  /** The sign bit of the type is one of the payload's bits, and it is set. */
  predicate SetsSign(signed: bool, b: Byte, n: nat)
    requires n > 0
  {
    signed && Significant(b, n) >= Pow2(n - 1)
  }

  /** The bits beyond the type are the expected copies of the sign. */
  predicate UnusedOk(signed: bool, b: Byte, n: nat)
    requires n > 0
  {
    n >= 7 || b % 128 == Significant(b, n) + if SetsSign(signed, b, n) then 128 - Pow2(n) else 0
  }

  /** What the payload of the last byte adds, in units of 2^shift. */
  function LastPayload(signed: bool, b: Byte, n: nat): int
    requires n > 0
  {
    if n <= 7 then Significant(b, n) - if SetsSign(signed, b, n) then Pow2(n) else 0
    else if signed && b % 128 >= 64 then b % 128 - 128
    else b % 128
  }

  lemma SignificantAll(b: Byte, n: nat)
    requires n >= 7
    ensures Significant(b, n) == b % 128
    ensures n >= 8 ==> Significant(b, n) < Pow2(n - 1)
  {
    assert Pow2(7) == 128;
    hide Pow2;
    Pow2Monotone(7, n);
    SmallRemainder(b % 128, Pow2(n));
    if n >= 8 {
      Pow2Monotone(7, n - 1);
    }
  }

  /** The checks on a last byte are the side conditions of the grammar, and the value is the grammar's. */
  lemma LastByte(signed: bool, n: nat, b: Byte)
    requires n > 0 && b < 128
    ensures Denotes(signed, n, [b]) == if UnusedOk(signed, b, n) then Some(LastPayload(signed, b, n)) else None
  {
    if n >= 7 {
      SignificantAll(b, n);
      assert Pow2(6) == 64 && Pow2(7) == 128;
      Pow2Monotone(6, n - 1);
      Pow2Monotone(7, n);
    } else {
      LastByteSmall(signed, n, b);
    }
  }

  lemma LastByteSmall(signed: bool, n: nat, b: Byte)
    requires 0 < n < 7 && b < 128
    ensures Denotes(signed, n, [b]) == if UnusedOk(signed, b, n) then Some(LastPayload(signed, b, n)) else None
  {
    assert Pow2(0) == 1 && Pow2(1) == 2 && Pow2(2) == 4 && Pow2(3) == 8;
    assert Pow2(4) == 16 && Pow2(5) == 32 && Pow2(6) == 64;
  }

  // ---- Accumulating the value -------------------------------------------------------------

  lemma PatternOf(t: IntType, p: nat)
    requires t.bits > 0 && p < Pow2(t.bits)
    ensures Pattern(t, p) == p && Pattern(t, FromPattern(t, p)) == p
  {
    var q := Pow2(t.bits);
    hide Pow2;
    assert (p - q) % q == p by {
      DivModUnique(p - q, q, -1, p);
    }
    SmallRemainder(p, q);
  }

  lemma MulMonotone(a: nat, b: nat, p: nat)
    requires a <= b
    ensures a * p <= b * p
  {
  }

  /** Where a payload shifted into place stands relative to the sign bit and the end of the type. */
  lemma ShiftedPayload(sig: nat, value: nat, half: nat, p: nat)
    requires value < p && sig < 2 * half
    ensures value + sig * p < 2 * half * p
    ensures value + sig * p >= half * p <==> sig >= half
  {
    MulMonotone(sig + 1, 2 * half, p);
    if sig >= half {
      MulMonotone(half, sig, p);
    } else {
      MulMonotone(sig + 1, half, p);
    }
  }

  lemma OrStep(t: IntType, value: nat, sig: nat, shift: nat)
    requires shift < t.bits && value < Pow2(shift) && sig < Pow2(t.bits - shift)
    ensures var v := Or(t, value, ShiftLeft(t, sig, shift));
            var negative := t.signed && sig >= Pow2(t.bits - shift - 1);
            && v == value + sig * Pow2(shift) - (if negative then Pow2(t.bits) else 0)
            && (negative ==> v < 0)
  {
    hide BitOr;
    var p, q, half := Pow2(shift), Pow2(t.bits), Pow2(t.bits - shift - 1);
    assert Pow2(t.bits - shift) == 2 * half;
    Pow2Add(t.bits - shift, shift);
    Pow2Add(t.bits - shift - 1, shift);
    assert q == 2 * half * p && Pow2(t.bits - 1) == half * p;
    hide Pow2;
    ShiftedPayload(sig, value, half, p);
    ShiftedPayload(sig, 0, half, p);
    MulMonotone(1, p, sig);
    PatternOf(t, sig);
    SmallRemainder(sig * p, q);
    PatternOf(t, sig * p);
    PatternOf(t, value);
    OrDisjoint(value, sig, shift);
  }

  lemma BelowProduct(value: nat, half: nat, up: nat)
    requires half <= value < 2 * half && up > 0
    ensures half * up <= value * up < 2 * half * up && value <= value * up
    ensures value * up - 2 * half * up == (value - 2 * half) * up
  {
    MulMonotone(half, value, up);
    MulMonotone(value + 1, 2 * half, up);
    MulMonotone(1, up, value);
    Distribute(value, 2 * half, up);
  }

  /** A value whose sign bit is shifted into the sign bit of the type becomes negative. */
  lemma ShiftedToSign(t: IntType, value: nat, k: nat)
    requires t.signed && 0 < k < t.bits && Pow2(k - 1) <= value < Pow2(k)
    ensures ShiftLeft(t, value, t.bits - k) == (value - Pow2(k)) * Pow2(t.bits - k)
  {
    var up, q, half := Pow2(t.bits - k), Pow2(t.bits), Pow2(k - 1);
    assert Pow2(k) == 2 * half;
    Pow2Add(k, t.bits - k);
    Pow2Add(k - 1, t.bits - k);
    assert q == 2 * half * up && Pow2(t.bits - 1) == half * up;
    hide Pow2;
    BelowProduct(value, half, up);
    PatternOf(t, value);
    SmallRemainder(value * up, q);
  }

  /** Shifting up and back down copies the sign bit. */
  lemma SignExtend(t: IntType, value: nat, k: nat)
    requires t.signed && 0 < k < t.bits && Pow2(k - 1) <= value < Pow2(k)
    ensures ShiftRight(t, ShiftLeft(t, value, t.bits - k), t.bits - k) == value - Pow2(k) < 0
  {
    hide Pow2, ShiftLeft;
    var up := Pow2(t.bits - k);
    ShiftedToSign(t, value, k);
    DivModUnique((value - Pow2(k)) * up, up, value - Pow2(k), 0);
  }

  lemma Distribute(a: int, b: int, p: int)
    ensures (a - b) * p == a * p - b * p
  {
  }

  // ---- Writing ------------------------------------------------------------------------------

  lemma RemainderOfMultiple(x: int, q: nat)
    requires q > 0
    ensures (x % (128 * q)) % 128 == x % 128
  {
    var k, r := x / (128 * q), x % (128 * q);
    assert x == k * (128 * q) + r;
    assert k * (128 * q) == 128 * (k * q);
    DivModUnique(x, 128, k * q + r / 128, r % 128);
  }

  lemma LowSeven(t: IntType, x: int, mask: nat)
    requires t.bits >= 8 && mask == Pow2(7) - 1
    ensures And(t, x, mask) == x % 128
  {
    assert Pow2(7) == 128;
    Pow2Add(7, t.bits - 7);
    Pow2Monotone(8, t.bits);
    Pow2Monotone(7, t.bits - 1);
    hide Pow2, BitAnd;
    PatternOf(t, mask);
    AndLowOnes(Pattern(t, x), 7);
    RemainderOfMultiple(x, Pow2(t.bits - 7));
  }

  /** What remains after seven bits is a copy of the sign exactly when one signed byte is enough. */
  lemma SignCopies(v: int)
    ensures FitsByte(true, v) <==> (v / 128 == 0 && v % 128 < 64) || (v / 128 == -1 && v % 128 >= 64)
    ensures v / 128 < 0 <==> v < 0
  {
  }

  lemma SetContinuation(b: Byte)
    requires b < 128
    ensures BitOr(b, 128) == b + 128
  {
    assert Pow2(7) == 128;
    OrDisjoint(b, 1, 7);
  }

  lemma Pow2Zero()
    ensures Pow2(0) == 1
  {
  }
}
