/**
 The deterministic random numbers of scripts/fuzz_shell.js: `hashCombine` and `randomBits`, with
 JavaScript's conversions to 32-bit integers written out.
 */
module HashSeed {
  import opened Wrappers
  import opened MachineInts

  const INT32 := IntType(true, 32)

  function BitXor(x: nat, y: nat): nat
    decreases x
  {
    if x == 0 then y
    else 2 * BitXor(x / 2, y / 2) + if x % 2 == y % 2 then 0 else 1
  }

  lemma {:induction false} XorBound(x: nat, y: nat, n: nat)
    requires x < Pow2(n) && y < Pow2(n)
    ensures BitXor(x, y) < Pow2(n)
    decreases n
  {
    if n > 0 && x > 0 {
      XorBound(x / 2, y / 2, n - 1);
    }
  }

  lemma {:induction false} XorCancels(x: nat, y: nat)
    ensures BitXor(x, BitXor(x, y)) == y
    decreases x
  {
    if x > 0 {
      XorCancels(x / 2, y / 2);
      var z := BitXor(x, y);
      assert z / 2 == BitXor(x / 2, y / 2);
      assert z % 2 == if x % 2 == y % 2 then 0 else 1;
    }
  }

  /** A bit of the exclusive disjunction is set if it is in one of them alone. */
  lemma {:induction false} XorBit(x: nat, y: nat, i: nat)
    ensures Down(BitXor(x, y), i) % 2 == 1 <==> Down(x, i) % 2 != Down(y, i) % 2
    decreases i
  {
    if i > 0 {
      hide BitXor;
      XorBit(x / 2, y / 2, i - 1);
      XorHalf(x, y);
    }
  }

  lemma XorHalf(x: nat, y: nat)
    ensures BitXor(x, y) / 2 == BitXor(x / 2, y / 2)
  {
  }

  /** What is mixed into the seed. */
  function Mixed(seed: int, value: int): int {
    value + 0x9e3779b9 + ShiftLeft(INT32, seed, 6) + Pattern(INT32, seed) / 4
  }

  /** The 32 bits that `hashCombine` leaves in the seed. */
  function Combined(seed: int, value: int): nat {
    BitXor(Pattern(INT32, seed), Pattern(INT32, Mixed(seed, value)))
  }

  /** The seed as `^=` stores it, a signed 32-bit integer. */
  function NextSeed(seed: int, value: int): int {
    FromPattern(INT32, Combined(seed, value))
  }

  /**
   JavaScript adds doubles from left to right, exactly as long as each sum is below 2^53. The values that
   are mixed in are -1 and lengths of arrays, which are below 2^32.
   */
  lemma SumsAreExact(seed: int, value: int)
    requires -1 <= value < 0x1_0000_0000
    ensures 0 <= value + 0x9e3779b9 < 0x20_0000_0000_0000
    ensures -0x20_0000_0000_0000 < value + 0x9e3779b9 + ShiftLeft(INT32, seed, 6) < 0x20_0000_0000_0000
    ensures -0x20_0000_0000_0000 < Mixed(seed, value) < 0x20_0000_0000_0000
  {
    Pow2ThirtyTwo();
    var p := Pattern(INT32, seed);
    assert 0 <= p < Pow2(32);
    var q := p * Pow2(6) % Pow2(32);
    assert 0 <= q < Pow2(32);
    hide Pow2;
    assert -0x1_0000_0000 <= FromPattern(INT32, q) < 0x1_0000_0000;
  }

  lemma Pow2ThirtyTwo()
    ensures Pow2(32) == 0x1_0000_0000 && Pow2(31) == 0x8000_0000
  {
    assert Pow2(8) == 0x100;
    Pow2Add(8, 8);
    Pow2Add(16, 16);
  }

  /**
   In plain arithmetic, for the seed's low 32 bits p: the result is p with the low 32 bits of
   value + 0x9e3779b9 + 64 p + floor(p / 4) flipped in it.
   */
  lemma Formula(seed: int, value: int)
    ensures var p := seed % 0x1_0000_0000;
            Combined(seed, value) == BitXor(p, (value + 0x9e3779b9 + 64 * p + p / 4) % 0x1_0000_0000)
  {
    Pow2ThirtyTwo();
    assert Pow2(6) == 64;
    hide Pow2, BitXor;
    var m, p := 0x1_0000_0000, seed % 0x1_0000_0000;
    var shifted := ShiftLeft(INT32, seed, 6);
    assert shifted == p * 64 % m || shifted == p * 64 % m - m;
    assert p * 64 == p * 64 / m * m + p * 64 % m;
    var k := if shifted < p * 64 % m || shifted < 0 then p * 64 / m + 1 else p * 64 / m;
    assert shifted == 64 * p - k * m;
    SameLowBits(value + 0x9e3779b9 + 64 * p + p / 4, Mixed(seed, value), k, m);
  }

  lemma SameLowBits(a: int, b: int, k: int, m: nat)
    requires m > 0 && b == a - k * m
    ensures a % m == b % m
  {
    assert a == a / m * m + a % m;
    assert b == (a / m - k) * m + a % m by {
      assert (a / m - k) * m == a / m * m - k * m;
    }
    DivModUnique(b, m, a / m - k, a % m);
  }

  lemma CombinedInRange(seed: int, value: int)
    ensures Combined(seed, value) < Pow2(32)
  {
    hide BitXor, Mixed, Pow2;
    XorBound(Pattern(INT32, seed), Pattern(INT32, Mixed(seed, value)), 32);
  }

  lemma PatternBack(p: nat)
    requires p < Pow2(32)
    ensures Pattern(INT32, FromPattern(INT32, p)) == p
  {
    hide Pow2;
    var m := Pow2(32);
    if FromPattern(INT32, p) < 0 {
      DivModUnique(p - m, m, -1, p);
    } else {
      SmallModulo(p, m);
    }
  }

  lemma SmallModulo(p: nat, m: nat)
    requires p < m
    ensures p % m == p
  {
  }

  /** The stored seed is the combined bits as a signed integer; reading it with `>>> 0` gives them back. */
  lemma StoredSeed(seed: int, value: int)
    ensures var bits := Combined(seed, value);
            && Pattern(INT32, NextSeed(seed, value)) == bits
            && NextSeed(seed, value) == if bits < 0x8000_0000 then bits else bits - 0x1_0000_0000
  {
    hide Combined, Pow2;
    Pow2ThirtyTwo();
    CombinedInRange(seed, value);
    PatternBack(Combined(seed, value));
  }

  /** Seeds that agree in their low 32 bits behave alike. */
  lemma OnlyLowBitsMatter(seed: int, other: int, value: int)
    requires Pattern(INT32, seed) == Pattern(INT32, other)
    ensures Combined(seed, value) == Combined(other, value)
  {
    hide BitXor, Pow2, Pattern;
  }

  /** From one seed, values that differ in their low 32 bits give different results. */
  lemma DistinctResults(seed: int, value: int, other: int)
    requires Combined(seed, value) == Combined(seed, other)
    ensures Pattern(INT32, value) == Pattern(INT32, other)
  {
    var p := Pattern(INT32, seed);
    var a, b := Pattern(INT32, Mixed(seed, value)), Pattern(INT32, Mixed(seed, other));
    assert a == b by {
      hide BitXor, Mixed, Pattern;
      XorCancels(p, a);
      XorCancels(p, b);
    }
    assert Mixed(seed, value) - Mixed(seed, other) == value - other by {
      hide Pattern, ShiftLeft;
    }
    hide Mixed, Pow2;
    SameRemainder(Mixed(seed, value), Mixed(seed, other), value, other, Pow2(32));
  }

  lemma SameRemainder(a: int, b: int, c: int, d: int, m: nat)
    requires m > 0 && a % m == b % m && a - b == c - d
    ensures c % m == d % m
  {
    var k := a / m - b / m;
    assert a == a / m * m + a % m && b == b / m * m + b % m;
    assert c == d + k * m by {
      assert (a / m - b / m) * m == a / m * m - b / m * m;
    }
    var q := d / m;
    assert d == q * m + d % m;
    assert c == (q + k) * m + d % m by {
      assert (q + k) * m == q * m + k * m;
    }
    DivModUnique(c, m, q + k, d % m);
  }

  /** The seed after `draws` random numbers were taken; without a seed none are. */
  function Draws(seed: Option<int>, draws: nat): Option<int>
    decreases draws
  {
    if seed.None? || draws == 0 then seed else Draws(Some(NextSeed(seed.value, -1)), draws - 1)
  }

  lemma {:induction false} DrawsKeepSeed(seed: Option<int>, draws: nat)
    ensures Draws(seed, draws).Some? == seed.Some?
    decreases draws
  {
    if seed.Some? && draws > 0 {
      DrawsKeepSeed(Some(NextSeed(seed.value, -1)), draws - 1);
    }
  }
}
