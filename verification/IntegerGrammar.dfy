/**
 The integer encodings uN and sN of section 5.2.2 of the WebAssembly Core Specification,
 and the shortest and padded members of that grammar.
 */
module IntegerGrammar {
  import opened Wrappers
  import opened MachineInts

  /** The value that the grammar uN (or sN if `signed`) gives to a byte sequence, if it derives it. */
  ghost function Denotes(signed: bool, n: nat, bs: seq<Byte>): Option<int>
    requires n > 0
  {
    if bs == [] then None
    else
      var b := bs[0];
      if b < 128 then
        if |bs| > 1 then None
        else if !signed then if b < Pow2(n) then Some(b) else None
        else if b < 64 then if b < Pow2(n - 1) then Some(b) else None
        else if b >= 128 - Pow2(n - 1) then Some(b - 128) else None
      else if n <= 7 then None
      else match Denotes(signed, n - 7, bs[1..])
        case None => None
        case Some(m) => Some(128 * m + (b - 128))
  }

  predicate InRange(signed: bool, n: nat, v: int)
    requires n > 0
  {
    if signed then -(Pow2(n - 1) as int) <= v < Pow2(n - 1) else 0 <= v < Pow2(n)
  }

  /** ceil(n / 7) */
  function MaxBytes(n: nat): nat { (n + 6) / 7 }

  // ---- Encodings --------------------------------------------------------------------

  /** One byte is enough for `v`: the remaining bits are copies of the sign. */
  predicate FitsByte(signed: bool, v: int) {
    if signed then -64 <= v < 64 else v < 128
  }

  /** The encoding of `v` with at least `minimum` bytes, and no more than needed. */
  function Encode(signed: bool, v: int, minimum: nat): seq<Byte>
    requires signed || v >= 0
    decreases minimum, if v < 0 then -v else v
  {
    if FitsByte(signed, v) && minimum <= 1 then [v % 128]
    else [v % 128 + 128] + Encode(signed, v / 128, Minus(minimum, 1))
  }

  function Minus(a: nat, b: nat): nat {
    if a > b then a - b else 0
  }

  lemma MinusStep(a: nat, b: nat)
    ensures Minus(a, 0) == a
    ensures Minus(Minus(a, b), 1) == Minus(a, b + 1)
    ensures b + 1 < a <==> Minus(a, b) > 1
    ensures Minus(a, b + 1) < Minus(a, b) || (Minus(a, b + 1) == Minus(a, b) == 0)
  {
  }

  lemma EncodeUnfold(signed: bool, v: int, minimum: nat)
    requires signed || v >= 0
    ensures Encode(signed, v, minimum) ==
            if FitsByte(signed, v) && minimum <= 1 then [v % 128]
            else [v % 128 + 128] + Encode(signed, v / 128, Minus(minimum, 1))
  {
  }

  /** The encoding of what is left stands at position `k` of the whole encoding. */
  ghost predicate Remains(signed: bool, v: int, minimum: nat, encoding: seq<Byte>, k: nat)
    requires signed || v >= 0
  {
    k <= |encoding| && Encode(signed, v, minimum) == encoding[k..]
  }

  lemma AllRemains(signed: bool, v: int, minimum: nat)
    requires signed || v >= 0
    ensures Remains(signed, v, minimum, Encode(signed, v, minimum), 0)
  {
  }

  /** Seven bits, and whether there are more. */
  function LowByte(v: int, more: bool): Byte {
    v % 128 + if more then 128 else 0
  }

  function Rest(v: int): int {
    v / 128
  }

  lemma EncodedAt(signed: bool, v: int, minimum: nat, encoding: seq<Byte>, k: nat)
    requires (signed || v >= 0) && Remains(signed, v, minimum, encoding, k)
    ensures k < |encoding|
    ensures signed || Rest(v) >= 0
    ensures var more := !FitsByte(signed, v) || minimum > 1;
            && encoding[k] == LowByte(v, more)
            && if more then Remains(signed, Rest(v), Minus(minimum, 1), encoding, k + 1) else k + 1 == |encoding|
  {
    EncodeUnfold(signed, v, minimum);
    assert encoding[k + 1..] == encoding[k..][1..];
  }

  /** What one round of the padding writer, from its state after `k` bytes, must write and leave. */
  lemma WriteRound(signed: bool, v: int, minimum: nat, encoding: seq<Byte>, k: nat,
      before: seq<Byte>, at: nat, bytes: seq<Byte>)
    requires (signed || v >= 0) && Remains(signed, v, Minus(minimum, k), encoding, k)
    requires Written(before, at, encoding, k, bytes)
    ensures k < |encoding| && at + k < |bytes|
    ensures Written(before, at, encoding, k + 1, WithByte(bytes, at + k, encoding[k]))
    ensures signed || Rest(v) >= 0
    ensures var more := !FitsByte(signed, v) || k + 1 < minimum;
            && encoding[k] == LowByte(v, more)
            && if more then Remains(signed, Rest(v), Minus(minimum, k + 1), encoding, k + 1) else k + 1 == |encoding|
  {
    hide Encode, FitsByte, WithByte, Minus, Written, Remains, LowByte, Rest;
    EncodedAt(signed, v, Minus(minimum, k), encoding, k);
    MinusStep(minimum, k);
    WriteNext(before, at, encoding, k, bytes);
  }

  function Shortest(signed: bool, v: int): seq<Byte>
    requires signed || v >= 0
  {
    Encode(signed, v, 0)
  }

  lemma RangeBelow(signed: bool, n: nat, v: int)
    requires n > 7 && InRange(signed, n, v)
    ensures InRange(signed, n - 7, v / 128)
  {
    if signed {
      Pow2Plus7(n - 8);
    } else {
      Pow2Plus7(n - 7);
    }
  }

  lemma RangeOfByte(signed: bool, n: nat, v: int)
    requires 0 < n <= 7 && InRange(signed, n, v)
    ensures FitsByte(signed, v)
  {
    Pow2Monotone(n, 7);
    Pow2Monotone(n - 1, 6);
    assert Pow2(7) == 128 && Pow2(6) == 64;
  }

  lemma ByteDenotes(signed: bool, n: nat, v: int)
    requires n > 0 && InRange(signed, n, v) && FitsByte(signed, v)
    ensures Denotes(signed, n, [v % 128]) == Some(v)
  {
  }

  /** Every encoding of at most ceil(n/7) bytes is derived by the grammar and stands for the value. */
  lemma {:induction false} EncodeDenotes(signed: bool, n: nat, v: int, minimum: nat)
    requires n > 0 && InRange(signed, n, v) && minimum <= MaxBytes(n)
    ensures Denotes(signed, n, Encode(signed, v, minimum)) == Some(v)
    decreases n
  {
    hide Pow2, InRange;
    if FitsByte(signed, v) && minimum <= 1 {
      ByteDenotes(signed, n, v);
    } else {
      if n <= 7 {
        RangeOfByte(signed, n, v);
      }
      RangeBelow(signed, n, v);
      EncodeDenotes(signed, n - 7, v / 128, Minus(minimum, 1));
    }
  }

  /** Whatever the grammar derives is in range and at most ceil(n/7) bytes long. */
  lemma {:induction false} DenotesBounds(signed: bool, n: nat, bs: seq<Byte>)
    requires n > 0 && Denotes(signed, n, bs).Some?
    ensures |bs| <= MaxBytes(n) && InRange(signed, n, Denotes(signed, n, bs).value)
    decreases |bs|
  {
    if bs[0] >= 128 {
      DenotesBounds(signed, n - 7, bs[1..]);
      if signed {
        Pow2Plus7(n - 8);
      } else {
        Pow2Plus7(n - 7);
      }
    }
  }

  /** No derivable sequence stands for `v` with fewer bytes, and none but the encoder's with as many. */
  lemma {:induction false} ShortestIsLeast(signed: bool, n: nat, bs: seq<Byte>, v: int)
    requires n > 0 && Denotes(signed, n, bs) == Some(v)
    ensures signed || v >= 0
    ensures |Shortest(signed, v)| <= |bs|
    ensures |Shortest(signed, v)| == |bs| ==> bs == Shortest(signed, v)
    decreases |bs|
  {
    DenotesBounds(signed, n, bs);
    if bs[0] >= 128 {
      var m := Denotes(signed, n - 7, bs[1..]).value;
      ShortestIsLeast(signed, n - 7, bs[1..], m);
      assert bs == [bs[0]] + bs[1..];
      assert v / 128 == m && v % 128 == bs[0] - 128;
    }
  }

  lemma {:induction false} EncodeLength(signed: bool, v: int, minimum: nat)
    requires signed || v >= 0
    ensures |Encode(signed, v, minimum)| == if |Shortest(signed, v)| < minimum then minimum else |Shortest(signed, v)|
    decreases minimum, if v < 0 then -v else v
  {
    if !(FitsByte(signed, v) && minimum <= 1) {
      EncodeLength(signed, v / 128, Minus(minimum, 1));
      if FitsByte(signed, v) {
        assert FitsByte(signed, v / 128);
      }
    }
  }

  /** No derivable sequence is a proper prefix of another one. */
  lemma {:induction false} PrefixFree(signed: bool, n: nat, bs: seq<Byte>, more: seq<Byte>)
    requires n > 0 && Denotes(signed, n, bs).Some? && Denotes(signed, n, bs + more).Some?
    ensures more == []
    decreases |bs|
  {
    if bs[0] >= 128 {
      assert (bs + more)[1..] == bs[1..] + more;
      PrefixFree(signed, n - 7, bs[1..], more);
    }
  }
}
