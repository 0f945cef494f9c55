/**
 The simulated linear memory of src/shell-interface.h. The vector is never smaller than
 4096 bytes, so a memory is less than what is allocated for it.
 */
module ShellMemory {
  import opened MachineInts
  import opened LebBits

  const MIN_SIZE := 0x1000
  const MAX_MEMORY_SIZE := 0x4000_0000

  /** std::vector::resize */
  function VectorResize(s: seq<Byte>, n: nat): (r: seq<Byte>)
    ensures |r| == n
    ensures forall i :: 0 <= i < n ==> r[i] == if i < |s| then s[i] else 0
  {
    if n <= |s| then s[..n] else s + Zeros(n - |s|)
  }

  // ---- Little-endian numbers ---------------------------------------------------------

  function LittleEndian(v: nat, n: nat): (bs: seq<Byte>)
    ensures |bs| == n
    decreases n
  {
    if n == 0 then [] else [v % 256] + LittleEndian(v / 256, n - 1)
  }

  function FromLittleEndian(bs: seq<Byte>): nat {
    if bs == [] then 0 else bs[0] + 256 * FromLittleEndian(bs[1..])
  }

  /** Writing `n` bytes keeps the value modulo 256^n. */
  lemma {:induction false} LittleEndianRoundTrip(v: nat, n: nat)
    requires v < Pow2(8 * n)
    ensures FromLittleEndian(LittleEndian(v, n)) == v
    decreases n
  {
    if n > 0 {
      assert 8 * n == 8 * (n - 1) + 8 && Pow2(8) == 256;
      Pow2Add(8 * (n - 1), 8);
      LittleEndianRoundTrip(v / 256, n - 1);
    }
  }

  lemma {:induction false} FromLittleEndianBound(bs: seq<Byte>)
    ensures FromLittleEndian(bs) < Pow2(8 * |bs|)
    decreases |bs|
  {
    if bs != [] {
      assert 8 * |bs| == 8 * |bs[1..]| + 8 && Pow2(8) == 256;
      Pow2Add(8 * |bs[1..]|, 8);
      FromLittleEndianBound(bs[1..]);
    }
  }

  lemma {:induction false} FromLittleEndianAppend(bs: seq<Byte>, b: Byte)
    ensures FromLittleEndian(bs + [b]) == FromLittleEndian(bs) + b * Pow2(8 * |bs|)
    decreases |bs|
  {
    if bs == [] {
      assert [b][1..] == [];
    } else {
      assert (bs + [b])[1..] == bs[1..] + [b];
      FromLittleEndianAppend(bs[1..], b);
      assert 8 * |bs| == 8 * |bs[1..]| + 8 && Pow2(8) == 256;
      Pow2Add(8 * |bs[1..]|, 8);
      var p := Pow2(8 * |bs[1..]|);
      assert 256 * (b * p) == b * (p * 256);
    }
  }

  lemma NextLittleEndian(bytes: seq<Byte>, i: nat, bits: nat)
    requires i < |bytes| && 8 * |bytes| <= bits
    ensures (FromLittleEndian(bytes[..i]) + bytes[i] * Pow2(8 * i)) % Pow2(bits) == FromLittleEndian(bytes[..i + 1])
  {
    hide Pow2, FromLittleEndian;
    assert bytes[..i + 1] == bytes[..i] + [bytes[i]];
    FromLittleEndianAppend(bytes[..i], bytes[i]);
    FromLittleEndianBound(bytes[..i + 1]);
    Pow2Monotone(8 * (i + 1), bits);
    SmallRemainder(FromLittleEndian(bytes[..i + 1]), Pow2(bits));
  }

  lemma SliceWithin<T>(s: seq<T>, size: nat, from: nat, n: nat)
    requires from + n <= size <= |s|
    ensures s[..size][from..from + n] == s[from..from + n]
  {
  }

  class Memory {
    var memory: seq<Byte>
    /** The size of the memory that is simulated, which its user keeps. */
    ghost var size: nat

    /** The hidden tail of the vector is zero. */
    ghost predicate Valid()
      reads this
    {
      && (|memory| == (if size < MIN_SIZE then MIN_SIZE else size) || (memory == [] && size == 0))
      && forall i :: size <= i < |memory| ==> memory[i] == 0
    }

    ghost function Contents(): (contents: seq<Byte>)
      reads this
      requires Valid()
      ensures |contents| == size
    {
      memory[..size]
    }

    constructor ()
      ensures Valid() && Contents() == []
    {
      memory, size := [], 0;
    }

    /** Whatever the sizes, the memory is truncated or extended with zeros. */
    method Resize(newSize: nat)
      requires Valid()
      modifies this
      ensures Valid() && Contents() == VectorResize(old(Contents()), newSize)
      ensures |memory| == if newSize < 4096 then 4096 else newSize
    {
      var oldSize := |memory|;
      memory := VectorResize(memory, if newSize < MIN_SIZE then MIN_SIZE else newSize);
      if newSize < oldSize && newSize < MIN_SIZE {
        // what is cut off but stays allocated becomes zero
        memory := Overwritten(memory, newSize, Zeros(MIN_SIZE - newSize));
      }
      size := newSize;
    }

    /** Store an integer, least significant byte first. */
    method Set(t: IntType, address: nat, value: int)
      requires Valid() && t.bits % 8 == 0 && address + t.bits / 8 <= size
      modifies this`memory
      ensures Valid()
      ensures Contents() == Overwritten(old(Contents()), address, LittleEndian(Pattern(t, value), t.bits / 8))
    {
      var v, n := Pattern(t, value), t.bits / 8;
      ghost var before, encoding := memory, LittleEndian(v, n);
      hide LittleEndian, Written, WithByte, Overwritten;
      WriteNothing(before, address, encoding);
      for i := 0 to n
        invariant Written(before, address, encoding, i, memory)
      {
        LittleEndianAt(v, n, i);
        WriteNext(before, address, encoding, i, memory);
        memory := WithByte(memory, address + i, v / Pow2(8 * i) % 256);
      }
      WrittenAll(before, address, encoding, memory);
      StoreInContents(before, size, address, encoding);
    }

    /** Store an array of bytes as it is. */
    method SetBytes(address: nat, bytes: seq<Byte>)
      requires Valid() && address + |bytes| <= size
      modifies this`memory
      ensures Valid() && Contents() == Overwritten(old(Contents()), address, bytes)
    {
      StoreInContents(memory, size, address, bytes);
      memory := Overwritten(memory, address, bytes);
    }

    /** Load an integer. */
    method Get(t: IntType, address: nat) returns (value: int)
      requires Valid() && t.bits % 8 == 0 && t.bits > 0 && address + t.bits / 8 <= size
      ensures value == FromPattern(t, FromLittleEndian(Contents()[address..address + t.bits / 8]))
    {
      var v, n := 0, t.bits / 8;
      ghost var bytes := memory[address..address + n];
      SliceWithin(memory, size, address, n);
      assert FromLittleEndian(bytes[..0]) == 0;
      hide Pow2, FromLittleEndian, FromPattern;
      for i := 0 to n
        invariant v == FromLittleEndian(bytes[..i])
      {
        NextLittleEndian(bytes, i, t.bits);
        v := (v + memory[address + i] * Pow2(8 * i)) % Pow2(t.bits);
      }
      assert bytes[..n] == bytes;
      value := FromPattern(t, v);
    }
  }

  /** A store below the simulated size changes only the simulated bytes. */
  lemma StoreInContents(memory: seq<Byte>, size: nat, address: nat, bytes: seq<Byte>)
    requires size <= |memory| && address + |bytes| <= size
    ensures Overwritten(memory, address, bytes)[..size] == Overwritten(memory[..size], address, bytes)
    ensures Overwritten(memory, address, bytes)[size..] == memory[size..]
    ensures forall i :: size <= i < |memory| ==> Overwritten(memory, address, bytes)[i] == memory[i]
  {
  }

  lemma {:induction false} LittleEndianAt(v: nat, n: nat, i: nat)
    requires i < n
    ensures LittleEndian(v, n)[i] == v / Pow2(8 * i) % 256
    decreases n
  {
    if i > 0 {
      LittleEndianAt(v / 256, n - 1, i - 1);
      assert 8 * i == 8 * (i - 1) + 8 && Pow2(8) == 256;
      Pow2Add(8, 8 * (i - 1));
      DivideTwice(v, Pow2(8 * (i - 1)));
    }
  }

  lemma DivideTwice(v: nat, p: nat)
    requires p > 0
    ensures v / (256 * p) == (v / 256) / p
  {
    var q, r := (v / 256) / p, (v / 256) % p;
    assert v / 256 == q * p + r;
    assert v == q * (256 * p) + (256 * r + v % 256) by {
      assert v == 256 * (q * p + r) + v % 256;
    }
    DivModUnique(v, 256 * p, q, 256 * r + v % 256);
  }

  /** Loading what was stored with the same type gives the value back. */
  lemma LoadAfterStore(t: IntType, contents: seq<Byte>, address: nat, value: int)
    requires t.bits % 8 == 0 && t.bits > 0 && address + t.bits / 8 <= |contents|
    requires if t.signed then -(Pow2(t.bits - 1) as int) <= value < Pow2(t.bits - 1) else 0 <= value < Pow2(t.bits)
    ensures var n := t.bits / 8;
            var after := Overwritten(contents, address, LittleEndian(Pattern(t, value), n));
            FromPattern(t, FromLittleEndian(after[address..address + n])) == value
  {
    var n := t.bits / 8;
    var p := Pow2(t.bits);
    assert p == 2 * Pow2(t.bits - 1);
    hide Pow2;
    DivModUnique(value, p, if value < 0 then -1 else 0, if value < 0 then value + p else value);
    LittleEndianRoundTrip(Pattern(t, value), n);
    var bytes := LittleEndian(Pattern(t, value), n);
    assert Overwritten(contents, address, bytes)[address..address + n] == bytes;
  }

  // ---- Runs -----------------------------------------------------------------------------------

  datatype Op =
    | ResizeTo(newSize: nat)
    | Store(address: nat, bytes: seq<Byte>)
    | StoreInt(address: nat, t: IntType, value: int)

  /** The bytes that a store puts at its address. */
  function StoredBytes(op: Op): seq<Byte>
    requires !op.ResizeTo?
  {
    match op
    case Store(_, bytes) => bytes
    case StoreInt(_, t, value) => LittleEndian(Pattern(t, value), t.bits / 8)
  }

  function SizeAfter(ops: seq<Op>): nat {
    if ops == [] then 0
    else
      var last := ops[|ops| - 1];
      if last.ResizeTo? then last.newSize else SizeAfter(ops[..|ops| - 1])
  }

  predicate StoreFits(op: Op, size: nat) {
    && (op.StoreInt? ==> op.t.bits % 8 == 0)
    && (!op.ResizeTo? ==> op.address + |StoredBytes(op)| <= size)
  }

  /** Every store is of whole bytes and inside the memory as it is then. */
  ghost predicate InBounds(ops: seq<Op>) {
    forall i :: 0 <= i < |ops| ==> StoreFits(ops[i], SizeAfter(ops[..i]))
  }

  /** The logical bytes after a run. */
  function Replay(ops: seq<Op>): (contents: seq<Byte>)
    requires InBounds(ops)
    ensures |contents| == SizeAfter(ops)
  {
    if ops == [] then []
    else
      var n := |ops| - 1;
      InBoundsPrefix(ops, n);
      var before := Replay(ops[..n]);
      assert StoreFits(ops[n], |before|);
      if ops[n].ResizeTo? then VectorResize(before, ops[n].newSize)
      else Overwritten(before, ops[n].address, StoredBytes(ops[n]))
  }

  lemma InBoundsPrefix(ops: seq<Op>, n: nat)
    requires InBounds(ops) && n <= |ops|
    ensures InBounds(ops[..n])
  {
    forall i | 0 <= i < n ensures StoreFits(ops[i], SizeAfter(ops[..n][..i])) {
      assert ops[..n][..i] == ops[..i];
    }
  }

  /** The byte of the latest store that covers the address, or zero if the address was cut off since. */
  function LatestByte(ops: seq<Op>, address: nat): Byte {
    if ops == [] then 0
    else
      var last := ops[|ops| - 1];
      var earlier := LatestByte(ops[..|ops| - 1], address);
      if last.ResizeTo? then if last.newSize <= address then 0 else earlier
      else
        var at, bytes := last.address, StoredBytes(last);
        if at <= address < at + |bytes| then bytes[address - at] else earlier
  }

  /** Each byte is the one most recently stored, also across the sizes in between. */
  lemma {:induction false} ReplayIsLatest(ops: seq<Op>, address: nat)
    requires InBounds(ops)
    ensures LatestByte(ops, address) == if address < SizeAfter(ops) then Replay(ops)[address] else 0
    decreases |ops|
  {
    if ops != [] {
      var n := |ops| - 1;
      InBoundsPrefix(ops, n);
      ReplayIsLatest(ops[..n], address);
      hide StoredBytes;
      assert StoreFits(ops[n], SizeAfter(ops[..n]));
    }
  }

  /** The latest bytes at `n` addresses. */
  function LatestBytes(ops: seq<Op>, address: nat, n: nat): seq<Byte> {
    if n == 0 then [] else LatestBytes(ops, address, n - 1) + [LatestByte(ops, address + n - 1)]
  }

  lemma {:induction false} ReplayIsLatestBytes(ops: seq<Op>, address: nat, n: nat)
    requires InBounds(ops) && address + n <= SizeAfter(ops)
    ensures LatestBytes(ops, address, n) == Replay(ops)[address..address + n]
    decreases n
  {
    hide InBounds, SizeAfter, Replay, LatestByte;
    if n > 0 {
      ReplayIsLatestBytes(ops, address, n - 1);
      ReplayIsLatest(ops, address + n - 1);
    }
  }

  /** Any run on a memory, with its vector of at least 4096 bytes, has the logical bytes of the replay. */
  method Perform(ops: seq<Op>) returns (m: Memory)
    requires InBounds(ops)
    ensures fresh(m) && m.Valid() && m.size == SizeAfter(ops) && m.Contents() == Replay(ops)
  {
    hide StoredBytes, VectorResize, Overwritten, LittleEndian;
    m := new Memory();
    for i := 0 to |ops|
      invariant fresh(m) && m.Valid()
      invariant InBounds(ops[..i]) && m.Contents() == Replay(ops[..i])
    {
      InBoundsPrefix(ops, i + 1);
      assert ops[..i + 1][..i] == ops[..i];
      assert StoreFits(ops[i], SizeAfter(ops[..i]));
      PerformOne(m, ops[i]);
    }
    assert ops[..|ops|] == ops;
  }

  method PerformOne(m: Memory, op: Op)
    requires m.Valid() && StoreFits(op, m.size)
    modifies m
    ensures m.Valid()
    ensures m.Contents() == if op.ResizeTo? then VectorResize(old(m.Contents()), op.newSize)
                            else Overwritten(old(m.Contents()), op.address, StoredBytes(op))
  {
    match op
    case ResizeTo(newSize) => m.Resize(newSize);
    case Store(address, bytes) => m.SetBytes(address, bytes);
    case StoreInt(address, t, value) => m.Set(t, address, value);
  }

  /** A load after any run gives the little-endian value of the bytes stored last. */
  method LoadAfterRun(ops: seq<Op>, t: IntType, address: nat) returns (value: int)
    requires InBounds(ops) && t.bits % 8 == 0 && t.bits > 0 && address + t.bits / 8 <= SizeAfter(ops)
    ensures value == FromPattern(t, FromLittleEndian(LatestBytes(ops, address, t.bits / 8)))
  {
    hide LatestByte, Replay, InBounds, SizeAfter, FromPattern, FromLittleEndian;
    var m := Perform(ops);
    value := m.Get(t, address);
    ReplayIsLatestBytes(ops, address, t.bits / 8);
  }
}
