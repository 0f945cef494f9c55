/** Reading a LEB byte by byte follows the grammar of the standard. */
module LebReading {
  import opened Wrappers
  import opened MachineInts
  import opened IntegerGrammar
  import opened LebBits

  datatype ReadError = EndOfInput | UnusedNegativeBits | UnusedNonNegativeBits | Overflow | SignExtendNotNegative

  /** The value after the payload of `b` has been or-ed in at `shift`. */
  function Accumulated(t: IntType, value: int, b: Byte, shift: nat): int
    requires shift < t.bits
  {
    value + Significant(b, t.bits - shift) * Pow2(shift)
      - if SetsSign(t.signed, b, t.bits - shift) then Pow2(t.bits) else 0
  }

  lemma OrPayload(t: IntType, value: nat, b: Byte, shift: nat)
    requires shift < t.bits && value < Pow2(shift)
    ensures Or(t, value, ShiftLeft(t, Significant(b, t.bits - shift), shift)) == Accumulated(t, value, b, shift)
    ensures SetsSign(t.signed, b, t.bits - shift) <==> t.signed && Accumulated(t, value, b, shift) < 0
  {
    hide Pow2, Or, ShiftLeft;
    assert Significant(b, t.bits - shift) < Pow2(t.bits - shift);
    OrStep(t, value, Significant(b, t.bits - shift), shift);
    MulMonotone(0, Significant(b, t.bits - shift), Pow2(shift));
  }

  /** The value completed by a derivation of the rest. */
  ghost function Lift(value: int, shift: nat, rest: Option<int>): Option<int> {
    match rest
    case None => None
    case Some(m) => Some(value + Pow2(shift) * m)
  }

  /** The bytes read so far contribute `value`, whatever follows. */
  ghost predicate Continues(t: IntType, read: seq<Byte>, value: int, shift: nat)
    requires shift < t.bits
  {
    forall rest :: Denotes(t.signed, t.bits, read + rest) == Lift(value, shift, Denotes(t.signed, t.bits - shift, rest))
  }

  /** Nothing that ends by position `pos` is derivable. */
  ghost predicate NoneUpTo(t: IntType, input: seq<Byte>, pos: nat)
    requires t.bits > 0 && pos <= |input|
  {
    forall k :: 0 <= k <= pos ==> Denotes(t.signed, t.bits, input[..k]).None?
  }

  lemma StartReading(t: IntType, input: seq<Byte>)
    requires t.bits > 0
    ensures Continues(t, input[..0], 0, 0) && NoneUpTo(t, input, 0)
  {
    forall rest: seq<Byte>
      ensures Denotes(t.signed, t.bits, input[..0] + rest) == Lift(0, 0, Denotes(t.signed, t.bits, rest))
    {
      assert input[..0] + rest == rest;
    }
  }

  lemma ContinuationDenotes(signed: bool, n: nat, b: Byte, rest: seq<Byte>)
    requires n > 7 && b >= 128
    ensures Denotes(signed, n, [b] + rest) == Lift(b - 128, 7, Denotes(signed, n - 7, rest))
  {
    assert Pow2(7) == 128;
    assert ([b] + rest)[1..] == rest;
  }

  lemma Regroup(p: int, c: int, m: int)
    ensures p * (c + 128 * m) == p * c + (128 * p) * m
  {
    assert p * (128 * m) == (128 * p) * m;
  }

  lemma LiftTwice(value: int, shift: nat, c: int, r: Option<int>)
    ensures Lift(value, shift, Lift(c, 7, r)) == Lift(value + Pow2(shift) * c, shift + 7, r)
  {
    Pow2Plus7(shift);
    assert Pow2(7) == 128;
    hide Pow2;
    if r.Some? {
      Regroup(Pow2(shift), c, r.value);
    }
  }

  lemma PayloadInPlace(value: nat, c: nat, p: nat)
    requires value < p && c < 128
    ensures 0 <= value + c * p < 128 * p && c * p == p * c
    ensures c >= 64 ==> value + c * p >= 64 * p
  {
    MulMonotone(c + 1, 128, p);
    assert (c + 1) * p == c * p + p;
    MulMonotone(if c >= 64 then 64 else 0, c, p);
  }

  lemma ContinuationValue(t: IntType, value: nat, b: Byte, shift: nat)
    requires shift + 7 < t.bits && value < Pow2(shift) && b >= 128
    ensures Accumulated(t, value, b, shift) == value + Pow2(shift) * (b - 128)
    ensures 0 <= Accumulated(t, value, b, shift) < Pow2(shift + 7)
  {
    hide Pow2, Significant;
    SignificantAll(b, t.bits - shift);
    Pow2Plus7(shift);
    PayloadInPlace(value, b - 128, Pow2(shift));
  }

  lemma ContinuesThrough(t: IntType, input: seq<Byte>, pos: nat, value: nat, shift: nat, rest: seq<Byte>)
    requires shift + 7 < t.bits && value < Pow2(shift) && pos < |input| && input[pos] >= 128
    requires Continues(t, input[..pos], value, shift)
    ensures Denotes(t.signed, t.bits, input[..pos + 1] + rest) ==
            Lift(Accumulated(t, value, input[pos], shift), shift + 7, Denotes(t.signed, t.bits - (shift + 7), rest))
  {
    var b, n := input[pos], t.bits - shift;
    hide Denotes, Lift, Accumulated;
    ContinuationValue(t, value, b, shift);
    assert input[..pos + 1] + rest == input[..pos] + ([b] + rest);
    ContinuationDenotes(t.signed, n, b, rest);
    LiftTwice(value, shift, b - 128, Denotes(t.signed, n - 7, rest));
  }

  /** A byte with its continuation bit set, when more than seven bits of the type remain. */
  lemma ReadContinuation(t: IntType, input: seq<Byte>, pos: nat, value: nat, shift: nat)
    requires shift + 7 < t.bits && value < Pow2(shift) && pos < |input| && input[pos] >= 128
    requires Continues(t, input[..pos], value, shift) && NoneUpTo(t, input, pos)
    ensures var v := Accumulated(t, value, input[pos], shift);
            0 <= v < Pow2(shift + 7) && Continues(t, input[..pos + 1], v, shift + 7)
    ensures NoneUpTo(t, input, pos + 1)
  {
    ContinuationValue(t, value, input[pos], shift);
    var read := input[..pos + 1];
    forall rest: seq<Byte>
      ensures Denotes(t.signed, t.bits, read + rest) ==
              Lift(Accumulated(t, value, input[pos], shift), shift + 7, Denotes(t.signed, t.bits - (shift + 7), rest))
    {
      ContinuesThrough(t, input, pos, value, shift, rest);
    }
    ContinuesThrough(t, input, pos, value, shift, []);
    assert input[..pos + 1] == input[..pos + 1] + [];
  }

  /** A byte that the reader refuses starts nothing that the grammar derives. */
  lemma RefusedByte(t: IntType, input: seq<Byte>, pos: nat, value: nat, shift: nat)
    requires shift < t.bits && pos < |input|
    requires Continues(t, input[..pos], value, shift) && NoneUpTo(t, input, pos)
    requires !UnusedOk(t.signed, input[pos], t.bits - shift) || (input[pos] >= 128 && t.bits - shift <= 7)
    ensures NoneUpTo(t, input, |input|)
  {
    var b, n := input[pos], t.bits - shift;
    forall k | pos < k <= |input| ensures Denotes(t.signed, t.bits, input[..k]).None? {
      var more := input[pos + 1..k];
      assert input[..k] == input[..pos] + ([b] + more);
      if b < 128 {
        LastByte(t.signed, n, b);
        assert more == [] ==> [b] + more == [b];
      }
      assert Denotes(t.signed, n, [b] + more).None?;
    }
  }

  /** The last byte completes a derivation. */
  lemma AcceptedByte(t: IntType, input: seq<Byte>, pos: nat, value: nat, shift: nat)
    requires shift < t.bits && pos < |input| && input[pos] < 128
    requires Continues(t, input[..pos], value, shift)
    requires UnusedOk(t.signed, input[pos], t.bits - shift)
    ensures Denotes(t.signed, t.bits, input[..pos + 1]) ==
            Some(value + Pow2(shift) * LastPayload(t.signed, input[pos], t.bits - shift))
  {
    hide Denotes, LastPayload, UnusedOk, Pow2;
    LastByte(t.signed, t.bits - shift, input[pos]);
    assert input[..pos + 1] == input[..pos] + [input[pos]];
  }

  lemma DistributeLeft(p: int, a: int, b: int)
    ensures p * (a - b) == a * p - b * p
  {
  }

  lemma LastValueFull(t: IntType, value: nat, b: Byte, shift: nat)
    requires shift < t.bits <= shift + 7 && value < Pow2(shift) && b < 128
    ensures Accumulated(t, value, b, shift) == value + Pow2(shift) * LastPayload(t.signed, b, t.bits - shift)
  {
    hide Pow2, Significant, SetsSign;
    var n, p := t.bits - shift, Pow2(shift);
    var sig, sign := Significant(b, n), SetsSign(t.signed, b, n);
    var cut: int := if sign then Pow2(n) else 0;
    assert LastPayload(t.signed, b, n) == sig - cut;
    assert Accumulated(t, value, b, shift) == value + sig * p - (if sign then Pow2(t.bits) else 0);
    hide Accumulated, LastPayload;
    Pow2Add(n, shift);
    DistributeLeft(p, sig, cut);
  }

  lemma LastValueShort(t: IntType, value: nat, b: Byte, shift: nat)
    requires shift + 7 < t.bits && value < Pow2(shift) && b < 128
    ensures var total := value + Pow2(shift) * LastPayload(t.signed, b, t.bits - shift);
            var v := Accumulated(t, value, b, shift);
            if t.signed && b >= 64 then v - Pow2(shift + 7) == total && Pow2(shift + 6) <= v < Pow2(shift + 7)
            else v == total
  {
    hide Pow2, Significant;
    var n, p := t.bits - shift, Pow2(shift);
    SignificantAll(b, n);
    assert Accumulated(t, value, b, shift) == value + b * p;
    Pow2Plus7(shift);
    Pow2Add(6, shift);
    assert Pow2(6) == 64 by { Pow2Six(); }
    PayloadInPlace(value, b, p);
    Distribute(b, 128, p);
  }

  /** The value after the last byte, before and after sign extension. */
  lemma LastValue(t: IntType, value: nat, b: Byte, shift: nat)
    requires shift < t.bits && value < Pow2(shift) && b < 128
    ensures var n := t.bits - shift;
            var total := value + Pow2(shift) * LastPayload(t.signed, b, n);
            var v := Accumulated(t, value, b, shift);
            && (n <= 7 || !t.signed || b < 64 ==> v == total)
            && (n > 7 && t.signed && b >= 64 ==>
                  v - Pow2(shift + 7) == total && Pow2(shift + 6) <= v < Pow2(shift + 7))
  {
    hide Pow2, Accumulated, LastPayload;
    if t.bits <= shift + 7 {
      LastValueFull(t, value, b, shift);
    } else {
      LastValueShort(t, value, b, shift);
    }
  }

  lemma Pow2Six()
    ensures Pow2(6) == 64
  {
  }

  // ---- Exactness ------------------------------------------------------------------------------

  /** Among the prefixes of an input the grammar derives at most one. */
  lemma OneReading(t: IntType, input: seq<Byte>, j: nat, k: nat)
    requires t.bits > 0 && j <= |input| && k <= |input|
    requires Denotes(t.signed, t.bits, input[..j]).Some? && Denotes(t.signed, t.bits, input[..k]).Some?
    ensures j == k
  {
    if j < k {
      assert input[..k] == input[..j] + input[j..k];
      PrefixFree(t.signed, t.bits, input[..j], input[j..k]);
    } else if k < j {
      assert input[..j] == input[..k] + input[k..j];
      PrefixFree(t.signed, t.bits, input[..k], input[k..j]);
    }
  }

  /** The reader returned `v` after `k` bytes. */
  ghost predicate Returned(r: Result<nat, ReadError>, value: int, k: nat, v: int) {
    r == Ok(k) && value == v
  }

  /** The first `k` bytes derive `v`. */
  ghost predicate Derives(t: IntType, input: seq<Byte>, k: nat, v: int)
    requires t.bits > 0
  {
    k <= |input| && Denotes(t.signed, t.bits, input[..k]) == Some(v)
  }

  /** The reader returns v after k bytes exactly when those bytes derive v; otherwise it reports an error. */
  ghost predicate ReadsExactly(t: IntType, input: seq<Byte>, r: Result<nat, ReadError>, value: int)
    requires t.bits > 0
  {
    forall k, v :: Returned(r, value, k, v) <==> Derives(t, input, k, v)
  }

  lemma ReadIsExact(t: IntType, input: seq<Byte>, r: Result<nat, ReadError>, value: int)
    requires t.bits > 0
    requires r.Ok? ==> Derives(t, input, r.value, value)
    requires r.Err? ==> NoneUpTo(t, input, |input|)
    ensures ReadsExactly(t, input, r, value)
  {
    forall k, v ensures Returned(r, value, k, v) <==> Derives(t, input, k, v) {
      if r.Ok? && Derives(t, input, k, v) {
        OneReading(t, input, r.value, k);
      }
    }
  }

  /**
   Why the reader gives up: the input ends while its bytes still ask for another one; or the byte
   at which the type is full sets bits beyond the type, or asks for one more byte.
   */
  ghost predicate Refused(t: IntType, input: seq<Byte>, error: ReadError)
    requires t.bits > 0
  {
    var full := (t.bits - 1) / 7;
    && (forall i :: 0 <= i < full && i < |input| ==> input[i] >= 128)
    && if |input| <= full then error == EndOfInput
       else
         var b, n := input[full], t.bits - 7 * full;
         if UnusedOk(t.signed, b, n) then b >= 128 && error == Overflow
         else error == if SetsSign(t.signed, b, n) then UnusedNegativeBits else UnusedNonNegativeBits
  }

  /** The reader has taken `pos` bytes that ask for more, and stops there. */
  lemma RefusedAt(t: IntType, input: seq<Byte>, pos: nat, error: ReadError)
    requires 7 * pos < t.bits && pos <= |input| && forall i :: 0 <= i < pos ==> input[i] >= 128
    requires pos == |input| ==> error == EndOfInput
    requires pos < |input| ==>
               var b, n := input[pos], t.bits - 7 * pos;
               if UnusedOk(t.signed, b, n) then n <= 7 && b >= 128 && error == Overflow
               else error == if SetsSign(t.signed, b, n) then UnusedNegativeBits else UnusedNonNegativeBits
    ensures Refused(t, input, error)
  {
    if pos < |input| {
      assert t.bits - 7 * pos <= 7;
      DivModUnique(t.bits - 1, 7, pos, t.bits - 1 - 7 * pos);
    }
  }

  /** Reading what was written, padded or not and with anything after it, gives the value back. */
  lemma ReadAfterWrite(t: IntType, v: int, minimum: nat, tail: seq<Byte>, r: Result<nat, ReadError>, value: int)
    requires t.bits > 0 && InRange(t.signed, t.bits, v)
    requires ReadsExactly(t, Encode(t.signed, v, minimum) + tail, r, value)
    ensures minimum <= MaxBytes(t.bits) ==> r == Ok(|Encode(t.signed, v, minimum)|) && value == v
  {
    var bs := Encode(t.signed, v, minimum);
    assert (bs + tail)[..|bs|] == bs;
    if minimum <= MaxBytes(t.bits) {
      EncodeDenotes(t.signed, t.bits, v, minimum);
      assert Derives(t, bs + tail, |bs|, v);
    }
  }

  /** What the grammar derives ends with a byte that does not ask for another one. */
  lemma {:induction false} DerivedEnds(signed: bool, n: nat, bs: seq<Byte>)
    requires n > 0 && Denotes(signed, n, bs).Some?
    ensures bs != [] && bs[|bs| - 1] < 128
    decreases |bs|
  {
    if bs[0] >= 128 {
      DerivedEnds(signed, n - 7, bs[1..]);
    }
  }

  /** Every byte of an encoding but the last asks for another one. */
  lemma {:induction false} EncodeContinues(signed: bool, v: int, minimum: nat, i: nat)
    requires (signed || v >= 0) && i + 1 < |Encode(signed, v, minimum)|
    ensures Encode(signed, v, minimum)[i] >= 128
    decreases i
  {
    EncodeUnfold(signed, v, minimum);
    if i > 0 {
      EncodeContinues(signed, v / 128, Minus(minimum, 1), i - 1);
    }
  }

  /** An encoding padded to more than ceil(N/7) bytes is refused, whatever follows it. */
  lemma OverPadded(t: IntType, v: int, minimum: nat, tail: seq<Byte>, r: Result<nat, ReadError>, value: int)
    requires t.bits > 0 && (t.signed || v >= 0) && minimum > MaxBytes(t.bits)
    requires ReadsExactly(t, Encode(t.signed, v, minimum) + tail, r, value)
    ensures r.Err?
  {
    var bs := Encode(t.signed, v, minimum);
    EncodeLength(t.signed, v, minimum);
    hide Encode, Denotes;
    if r.Ok? {
      var k := r.value;
      assert Returned(r, value, k, value);
      assert Derives(t, bs + tail, k, value);
      DenotesBounds(t.signed, t.bits, (bs + tail)[..k]);
      DerivedEnds(t.signed, t.bits, (bs + tail)[..k]);
      EncodeContinues(t.signed, v, minimum, k - 1);
    }
  }

  /** What the writer emits is as short as any sequence that is read back as the value. */
  lemma WriteIsShortest(t: IntType, v: int, bs: seq<Byte>)
    requires t.bits > 0 && Derives(t, bs, |bs|, v)
    ensures (t.signed || v >= 0) && |Shortest(t.signed, v)| <= |bs| && |Shortest(t.signed, v)| <= MaxBytes(t.bits)
    ensures |bs| == |Shortest(t.signed, v)| ==> bs == Shortest(t.signed, v)
  {
    assert bs[..|bs|] == bs;
    ShortestIsLeast(t.signed, t.bits, bs, v);
    DenotesBounds(t.signed, t.bits, bs);
  }
}
