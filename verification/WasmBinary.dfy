/** The LEB codec and the random-access output buffer of src/wasm-binary.h. */
module WasmBinary {
  import opened Wrappers
  import opened MachineInts
  import opened IntegerGrammar
  import opened LebBits
  import opened LebReading

  class LEB {
    const t: IntType
    var value: int

    constructor (t: IntType, value: int)
      ensures this.t == t && this.value == value
    {
      this.t, this.value := t, value;
    }

    predicate Valid()
      reads this
    {
      t.bits >= 8 && InRange(t.signed, t.bits, value)
    }

    /** For signed, the last byte must have the right sign bit, as readers sign-extend it. */
    predicate HasMore(temp: int, byte: Byte)
      reads this
    {
      if t.signed then
        || (temp != 0 && temp != -1)
        || (value >= 0 && BitAnd(byte, 64) != 0)
        || (value < 0 && BitAnd(byte, 64) == 0)
      else temp != 0
    }

    /** The body of both writing loops: the next byte, what is left, and whether to go on. */
    method NextByte(temp: int, pad: bool) returns (byte: Byte, rest: int, more: bool)
      requires Valid() && (t.signed || temp >= 0) && (temp < 0 <==> value < 0)
      ensures rest == Rest(temp) && (rest < 0 <==> temp < 0)
      ensures more <==> !FitsByte(t.signed, temp) || pad
      ensures byte == LowByte(temp, more)
    {
      hide And, BitOr, BitAnd, ShiftRight, HasMore;
      LowSeven(t, temp, 127);
      Step(temp);
      byte := And(t, temp, 127);
      rest := ShiftRight(t, temp, 7);
      more := HasMore(rest, byte) || pad;
      if more {
        byte := BitOr(byte, 128);
      }
    }

    /** Append the shortest encoding of the value. */
    method Write(out: BufferWithRandomAccess)
      requires Valid()
      modifies out
      ensures out.bytes == old(out.bytes) + Shortest(t.signed, value)
    {
      assert t.signed || value >= 0;
      hide Encode, FitsByte, InRange, LowByte, Rest;
      var temp := value;
      var more := true;
      ghost var before, encoding, k := out.bytes, Shortest(t.signed, value), 0;
      while more
        invariant (t.signed || temp >= 0) && (temp < 0 <==> value < 0)
        invariant k <= |encoding|
        invariant if more then Remains(t.signed, temp, 0, encoding, k) else k == |encoding|
        invariant out.bytes == before + encoding[..k]
        decreases |encoding| - k
      {
        EncodedAt(t.signed, temp, 0, encoding, k);
        var byte;
        byte, temp, more := NextByte(temp, false);
        out.PushBack(byte);
        k := k + 1;
      }
      assert encoding[..k] == encoding;
    }

    /** Overwrite `out` from `at` on, with at least `minimum` bytes. Returns how many were written. */
    method WriteAt(out: BufferWithRandomAccess, at: nat, minimum: nat) returns (offset: nat)
      requires Valid() && at + |Encode(t.signed, value, minimum)| <= |out.bytes|
      modifies out
      ensures offset == |Encode(t.signed, value, minimum)|
      ensures out.bytes == Overwritten(old(out.bytes), at, Encode(t.signed, value, minimum))
    {
      assert t.signed || value >= 0;
      hide *;
      var temp := value;
      offset := 0;
      var more := true;
      ghost var before, encoding := out.bytes, Encode(t.signed, value, minimum);
      WriteNothing(before, at, encoding);
      MinusStep(minimum, 0);
      AllRemains(t.signed, value, minimum);
      while more
        invariant (t.signed || temp >= 0) && (temp < 0 <==> value < 0)
        invariant offset <= |encoding|
        invariant more ==> Remains(t.signed, temp, Minus(minimum, offset), encoding, offset)
        invariant !more ==> offset == |encoding|
        invariant Written(before, at, encoding, offset, out.bytes)
        decreases |encoding| - offset
      {
        WriteRound(t.signed, temp, minimum, encoding, offset, before, at, out.bytes);
        var byte;
        byte, temp, more := NextByte(temp, offset + 1 < minimum);
        out.SetByte(at + offset, byte);
        offset := offset + 1;
      }
      WrittenAll(before, at, encoding, out.bytes);
    }

    /**
     Or the payload of `byte` into the value at `shift`, and check the payload bits
     that are beyond the type.
     */
    method TakePayload(byte: Byte, shift: nat) returns (error: Option<ReadError>)
      requires 8 <= t.bits && shift < t.bits && 0 <= value < Pow2(shift)
      modifies this`value
      ensures value == Accumulated(t, old(value), byte, shift)
      ensures error ==
              if UnusedOk(t.signed, byte, t.bits - shift) then None
              else if SetsSign(t.signed, byte, t.bits - shift) then Some(UnusedNegativeBits)
              else Some(UnusedNonNegativeBits)
    {
      hide BitAnd, BitOr, Pow2, Or, ShiftLeft, Accumulated, Significant;
      ghost var n := t.bits - shift;
      Pow2Monotone(0, t.bits);
      Pow2Monotone(n, t.bits);
      PayloadMasks(t.bits, n, byte);
      OrPayload(t, value, byte, shift);
      var payload := BitAnd(byte, 127);
      var payloadMask: nat := if shift == 0 then Pow2(t.bits) - 1 else Pow2(t.bits - shift) - 1;
      var significantPayload := BitAnd(payloadMask, payload);
      value := Or(t, value, ShiftLeft(t, significantPayload, shift));
      var unusedBitsMask := BitAnd(Pow2(t.bits) - 1 - payloadMask, 127);
      var unusedBits := BitAnd(payload, unusedBitsMask);
      if t.signed && value < 0 {
        if unusedBits != unusedBitsMask {
          return Some(UnusedNegativeBits);
        }
      } else if unusedBits != 0 {
        return Some(UnusedNonNegativeBits);
      }
      return None;
    }

    /**
     Read a value from the front of `input`; the result is the number of bytes taken.
     It is the one that the grammar of the standard derives from those bytes, and if there
     is an error then the grammar derives nothing from any prefix of the input.
     */
    method Read(input: seq<Byte>) returns (r: Result<nat, ReadError>)
      requires 8 <= t.bits
      modifies this`value
      ensures ReadsExactly(t, input, r, value)
      ensures r != Err(SignExtendNotNegative)
      ensures r.Err? ==> Refused(t, input, r.error)
    {
      hide BitAnd, Pow2, Denotes, Continues, NoneUpTo, Accumulated, UnusedOk, LastPayload, ShiftLeft, ShiftRight;
      hide ReadsExactly, Refused, SetsSign;
      value := 0;
      var shift, pos := 0, 0;
      var byte: Byte := 0;
      StartReading(t, input);
      Pow2Zero();
      ghost var before := 0;
      while true
        invariant pos <= |input| && shift < t.bits && 0 <= value < Pow2(shift)
        invariant Continues(t, input[..pos], value, shift) && NoneUpTo(t, input, pos)
        invariant shift == 7 * pos && forall i :: 0 <= i < pos ==> input[i] >= 128
        decreases |input| - pos
      {
        if pos == |input| {
          r := Err(EndOfInput);
          RefusedAt(t, input, pos, EndOfInput);
          ReadIsExact(t, input, r, value);
          return;
        }
        before := value;
        byte := input[pos];
        ByteFlags(byte);
        var last := BitAnd(byte, 128) == 0;
        var error := TakePayload(byte, shift);
        if error.Some? {
          RefusedByte(t, input, pos, before, shift);
          r := Err(error.value);
          RefusedAt(t, input, pos, error.value);
          ReadIsExact(t, input, r, value);
          return;
        }
        if last {
          break;
        }
        shift := shift + 7;
        if shift >= t.bits {
          RefusedByte(t, input, pos, before, shift - 7);
          r := Err(Overflow);
          RefusedAt(t, input, pos, Overflow);
          ReadIsExact(t, input, r, value);
          return;
        }
        ReadContinuation(t, input, pos, before, shift - 7);
        pos := pos + 1;
      }
      AcceptedByte(t, input, pos, before, shift);
      LastValue(t, before, byte, shift);
      pos := pos + 1;
      if t.signed {
        shift := shift + 7;
        if BitAnd(byte, 64) != 0 && shift < t.bits {
          SignExtend(t, value, shift);
          var sextBits := t.bits - shift;
          value := ShiftLeft(t, value, sextBits);
          value := ShiftRight(t, value, sextBits);
          if value >= 0 {
            return Err(SignExtendNotNegative);
          }
        }
      }
      r := Ok(pos);
      ReadIsExact(t, input, r, value);
    }

    /** One round of the writing loops. */
    lemma Step(temp: int)
      requires t.signed || temp >= 0
      requires temp < 0 <==> value < 0
      ensures ShiftRight(t, temp, 7) == temp / 128
      ensures HasMore(temp / 128, temp % 128) <==> !FitsByte(t.signed, temp)
      ensures BitOr(temp % 128, 128) == temp % 128 + 128
    {
      hide BitAnd, BitOr;
      assert Pow2(7) == 128;
      ByteFlags(temp % 128);
      SignCopies(temp);
      SetContinuation(temp % 128);
    }
  }

  class BufferWithRandomAccess {
    var bytes: seq<Byte>

    constructor ()
      ensures bytes == []
    {
      bytes := [];
    }

    /** (*this)[i] = b */
    method SetByte(i: nat, b: Byte)
      requires i < |bytes|
      modifies this
      ensures bytes == WithByte(old(bytes), i, b)
    {
      bytes := bytes[i := b];
    }

    method PushBack(b: Byte)
      modifies this
      ensures bytes == old(bytes) + [b]
    {
      bytes := bytes + [b];
    }

    /** operator<<(int32_t): four bytes, least significant first. */
    method PutInt32(x: int)
      modifies this
      ensures bytes == old(bytes) + [x % 256, x / 256 % 256, x / 0x1_0000 % 256, x / 0x100_0000 % 256]
    {
      var rest := x;
      PushBack(rest % 256);
      rest := rest / 256;
      PushBack(rest % 256);
      rest := rest / 256;
      PushBack(rest % 256);
      rest := rest / 256;
      PushBack(rest % 256);
    }

    /** Set five bytes aside for a size that is not known yet. */
    method WriteU32LEBPlaceholder() returns (ret: nat)
      modifies this
      ensures ret == |old(bytes)| % 0x1_0000_0000
      ensures bytes == old(bytes) + [0, 0, 0, 0, 0]
    {
      ret := |bytes| % 0x1_0000_0000;
      PutInt32(0);
      PushBack(0);
    }

    /** Overwrite a full placeholder, whatever the value. */
    method WriteAtFullFixedSize(i: nat, x: nat)
      requires x < 0x1_0000_0000 && i + MAX_LEB32_BYTES <= |bytes|
      modifies this
      ensures |Encode(false, x, MAX_LEB32_BYTES)| == MAX_LEB32_BYTES
      ensures bytes == Overwritten(old(bytes), i, Encode(false, x, MAX_LEB32_BYTES))
    {
      U32Length(x);
      U32Range(x);
      var leb := new LEB(U32, x);
      var k := leb.WriteAt(this, i, MAX_LEB32_BYTES);
    }

    /** std::move of `count` bytes to a lower position. */
    method MoveDown(from: nat, to: nat, count: nat)
      requires to < from && from + count <= |bytes|
      modifies this
      ensures |bytes| == |old(bytes)| && bytes[..to] == old(bytes[..to])
      ensures bytes[to..to + count] == old(bytes[from..from + count])
    {
      ghost var before := bytes;
      for j := 0 to count
        invariant |bytes| == |before|
        invariant forall i :: 0 <= i < to ==> bytes[i] == before[i]
        invariant forall i :: to <= i < to + j ==> bytes[i] == before[i + (from - to)]
        invariant forall i :: from + j <= i < |bytes| ==> bytes[i] == before[i]
      {
        SetByte(to + j, bytes[from + j]);
      }
      SameSlice(before, from, bytes, to, count);
    }

    /**
     Replace the placeholder at `start` by the shortest encoding of the size of what follows,
     closing the gap. Returns by how much the contents moved.
     */
    method EmitRetroactiveSectionSizeLEB(start: nat) returns (adjustment: nat)
      requires start + MAX_LEB32_BYTES <= |bytes| && |bytes| - start - MAX_LEB32_BYTES < 0x1_0000_0000
      modifies this
      ensures bytes == Finished(old(bytes), start)
      ensures adjustment == |old(bytes)| - |bytes| == Adjustment(old(bytes), start)
    {
      hide Encode, Overwritten, Shortest, Zeros;
      ghost var before := bytes;
      var sectionSize := |bytes| - start - MAX_LEB32_BYTES;
      U32Length(sectionSize);
      var sizeFieldSize := WriteSize(start, sectionSize);
      ghost var field, written := Shortest(false, sectionSize), bytes;
      OverwrittenTail(before, start, field, start + MAX_LEB32_BYTES);
      adjustment := MAX_LEB32_BYTES - sizeFieldSize;
      if adjustment != 0 {
        MoveDown(start + MAX_LEB32_BYTES, start + sizeFieldSize, sectionSize);
        ghost var moved := bytes;
        assert moved[..start + sizeFieldSize] == before[..start] + field;
        ClosedGap(before, start, field, moved);
        Resize(|bytes| - adjustment);
      } else {
        assert written[..|before|] == written;
        ClosedGap(before, start, field, written);
      }
    }

    /** A size of 32 bits, in as many bytes as it needs. */
    method WriteSize(i: nat, x: nat) returns (length: nat)
      requires x < 0x1_0000_0000 && i + MAX_LEB32_BYTES <= |bytes|
      modifies this
      ensures length == |Shortest(false, x)| <= MAX_LEB32_BYTES
      ensures bytes == Overwritten(old(bytes), i, Shortest(false, x))
    {
      hide Encode, Overwritten;
      U32Length(x);
      U32Range(x);
      var leb := new LEB(U32, x);
      length := leb.WriteAt(this, i, 0);
    }

    /** std::move_backward of `count` bytes to a higher position. */
    method MoveUp(from: nat, to: nat, count: nat)
      requires from <= to && to + count <= |bytes|
      modifies this
      ensures |bytes| == |old(bytes)| && bytes[..from] == old(bytes[..from])
      ensures bytes[to..to + count] == old(bytes[from..from + count])
    {
      ghost var before := bytes;
      for j := count downto 0
        invariant |bytes| == |before|
        invariant forall i :: 0 <= i < to + j ==> bytes[i] == before[i]
        invariant forall i :: to + j <= i < to + count ==> bytes[i] == before[i - (to - from)]
      {
        SetByte(to + j, bytes[from + j]);
      }
      SameSlice(before, from, bytes, to, count);
    }

    /** Resizing to more bytes adds zeros. */
    method Resize(n: nat)
      modifies this
      ensures bytes == if n <= |old(bytes)| then old(bytes)[..n] else old(bytes) + Zeros(n - |old(bytes)|)
    {
      bytes := if n <= |bytes| then bytes[..n] else bytes + Zeros(n - |bytes|);
    }
  }

  // ---- Writing and reading back -------------------------------------------------------------

  /** What is written to an empty buffer and followed by anything is read back. */
  method WriteThenRead(t: IntType, v: int, tail: seq<Byte>) returns (r: Result<nat, ReadError>, value: int)
    requires 8 <= t.bits && InRange(t.signed, t.bits, v)
    ensures r == Ok(|Shortest(t.signed, v)|) && value == v
  {
    assert t.signed || v >= 0;
    hide InRange, Encode, ReadsExactly;
    var out := new BufferWithRandomAccess();
    var writer := new LEB(t, v);
    writer.Write(out);
    var reader := new LEB(t, 0);
    r := reader.Read(out.bytes + tail);
    value := reader.value;
    assert out.bytes == Encode(t.signed, v, 0);
    ReadAfterWrite(t, v, 0, tail, r, value);
  }

  /** What is written into a buffer, padded up to ceil(N/7) bytes, is read back from its place. */
  method WriteAtThenRead(t: IntType, v: int, minimum: nat, out: BufferWithRandomAccess, at: nat)
    returns (r: Result<nat, ReadError>, value: int)
    requires 8 <= t.bits && InRange(t.signed, t.bits, v) && (t.signed || v >= 0) && minimum <= MaxBytes(t.bits)
    requires at + |Encode(t.signed, v, minimum)| <= |out.bytes|
    modifies out
    ensures r == Ok(|Encode(t.signed, v, minimum)|) && value == v
  {
    hide InRange, Encode, ReadsExactly, MaxBytes;
    ghost var before, encoding := out.bytes, Encode(t.signed, v, minimum);
    var writer := new LEB(t, v);
    var length := writer.WriteAt(out, at, minimum);
    var reader := new LEB(t, 0);
    r := reader.Read(out.bytes[at..]);
    value := reader.value;
    assert out.bytes[at..] == encoding + before[at + |encoding|..];
    ReadAfterWrite(t, v, minimum, before[at + |encoding|..], r, value);
  }

  const MAX_LEB32_BYTES := 5
  const U32 := IntType(false, 32)

  lemma SameSlice(before: seq<Byte>, from: nat, after: seq<Byte>, to: nat, count: nat)
    requires from + count <= |before| && to + count <= |after|
    requires forall i :: to <= i < to + count ==> after[i] == before[i + (from - to)]
    ensures after[to..to + count] == before[from..from + count]
  {
    var a, b := after[to..to + count], before[from..from + count];
    forall i | 0 <= i < count ensures a[i] == b[i] {
      assert a[i] == after[to + i] == before[to + i + (from - to)];
    }
  }

  /** The buffer after the section whose placeholder is at `start` is finished. */
  function Finished(before: seq<Byte>, start: nat): seq<Byte>
    requires start + MAX_LEB32_BYTES <= |before|
  {
    before[..start]
      + Shortest(false, |before| - start - MAX_LEB32_BYTES)
      + before[start + MAX_LEB32_BYTES..]
  }

  /** By how many bytes finishing the section shortens the buffer. */
  function Adjustment(before: seq<Byte>, start: nat): int
    requires start + MAX_LEB32_BYTES <= |before|
  {
    MAX_LEB32_BYTES - |Shortest(false, |before| - start - MAX_LEB32_BYTES)|
  }

  /** What lies after the overwritten bytes is kept. */
  lemma OverwrittenTail(before: seq<Byte>, at: nat, written: seq<Byte>, from: nat)
    requires at + |written| <= from <= |before|
    ensures Overwritten(before, at, written)[..at + |written|] == before[..at] + written
    ensures Overwritten(before, at, written)[from..|before|] == before[from..]
  {
  }

  /** A size field of any length, with the body moved down next to it and the rest cut off. */
  lemma ClosedGap(before: seq<Byte>, start: nat, field: seq<Byte>, moved: seq<Byte>)
    requires start + MAX_LEB32_BYTES <= |before| == |moved| && |field| <= MAX_LEB32_BYTES
    requires moved[..start + |field|] == before[..start] + field
    requires moved[start + |field|..|before| - (MAX_LEB32_BYTES - |field|)] == before[start + MAX_LEB32_BYTES..]
    ensures moved[..|before| - (MAX_LEB32_BYTES - |field|)]
         == before[..start] + field + before[start + MAX_LEB32_BYTES..]
  {
    var n, k := |before| - (MAX_LEB32_BYTES - |field|), start + |field|;
    assert moved[..n] == moved[..k] + moved[k..n];
  }

  lemma U32Range(x: nat)
    requires x < 0x1_0000_0000
    ensures InRange(false, 32, x)
  {
    assert Pow2(8) == 0x100;
    Pow2Add(8, 8);
    Pow2Add(16, 16);
  }

  /** Every 32-bit size fits the placeholder, and padded it fills it. */
  lemma U32Length(x: nat)
    requires x < 0x1_0000_0000
    ensures 1 <= |Shortest(false, x)| <= MAX_LEB32_BYTES
    ensures |Encode(false, x, MAX_LEB32_BYTES)| == MAX_LEB32_BYTES
  {
    U32Range(x);
    EncodeDenotes(false, 32, x, 0);
    DenotesBounds(false, 32, Shortest(false, x));
    EncodeLength(false, x, MAX_LEB32_BYTES);
  }
}
