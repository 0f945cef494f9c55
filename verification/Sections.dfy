/**
 How the size-prefixed sections of src/wasm/wasm-binary.cpp use the buffer: write a
 placeholder, then the body, then go back and put the size in its place.
 */
module Sections {
  import opened MachineInts
  import opened IntegerGrammar
  import opened WasmBinary

  /** Plain bytes, or a body that is preceded by its size (section 5.5.2 of the WebAssembly Core Specification). */
  datatype Item = Raw(data: seq<Byte>) | Sized(body: seq<Item>)

  function Encoding(item: Item): seq<Byte> {
    match item
    case Raw(data) => data
    case Sized(body) => Shortest(false, |Encodings(body)|) + Encodings(body)
  }

  function Encodings(items: seq<Item>): seq<Byte> {
    if items == [] then [] else Encoding(items[0]) + Encodings(items[1..])
  }

  /** Written from offset `pos`, every placeholder's offset and every size has 32 bits. */
  predicate Fits(item: Item, pos: nat) {
    match item
    case Raw(_) => true
    case Sized(body) =>
      && pos < 0x1_0000_0000
      && FitsAll(body, pos + MAX_LEB32_BYTES)
      && |Encodings(body)| < 0x1_0000_0000
  }

  predicate FitsAll(items: seq<Item>, pos: nat) {
    items == [] || (Fits(items[0], pos) && FitsAll(items[1..], pos + |Encoding(items[0])|))
  }

  lemma SizedParts(body: seq<Item>, pos: nat)
    requires Fits(Sized(body), pos)
    ensures pos < 0x1_0000_0000 && FitsAll(body, pos + MAX_LEB32_BYTES) && |Encodings(body)| < 0x1_0000_0000
    ensures Encoding(Sized(body)) == Shortest(false, |Encodings(body)|) + Encodings(body)
  {
  }

  method WriteRaw(out: BufferWithRandomAccess, data: seq<Byte>)
    modifies out
    ensures out.bytes == old(out.bytes) + data
  {
    for i := 0 to |data|
      invariant out.bytes == old(out.bytes) + data[..i]
    {
      out.PushBack(data[i]);
    }
    assert data[..|data|] == data;
  }

  /** Placeholder, body, size. */
  method WriteSized(out: BufferWithRandomAccess, body: seq<Item>)
    requires Fits(Sized(body), |out.bytes|)
    modifies out
    ensures out.bytes == old(out.bytes) + Encoding(Sized(body))
    decreases body, 1
  {
    ghost var before, encoded := out.bytes, Encodings(body);
    SizedParts(body, |before|);
    FinishedSection(before, encoded);
    hide Fits, FitsAll, Encoding, Encodings, Shortest, Finished, Adjustment;
    var start := out.WriteU32LEBPlaceholder();
    assert start == |before| && |out.bytes| == |before| + MAX_LEB32_BYTES;
    WriteItems(out, body);
    assert out.bytes == before + [0, 0, 0, 0, 0] + encoded;
    var adjustment := out.EmitRetroactiveSectionSizeLEB(start);
  }

  /** Backpatching appends exactly the recursive encoding, at every level of nesting. */
  method WriteItem(out: BufferWithRandomAccess, item: Item)
    requires Fits(item, |out.bytes|)
    modifies out
    ensures out.bytes == old(out.bytes) + Encoding(item)
    decreases item, 0
  {
    match item
    case Raw(data) => WriteRaw(out, data);
    case Sized(body) => WriteSized(out, body);
  }

  method WriteItems(out: BufferWithRandomAccess, items: seq<Item>)
    requires FitsAll(items, |out.bytes|)
    modifies out
    ensures out.bytes == old(out.bytes) + Encodings(items)
    decreases items, 0
  {
    assert items[0..] == items;
    for i := 0 to |items|
      invariant FitsAll(items[i..], |out.bytes|)
      invariant out.bytes + Encodings(items[i..]) == old(out.bytes) + Encodings(items)
    {
      assert items[i..][0] == items[i] && items[i..][1..] == items[i + 1..];
      assert out.bytes + (Encoding(items[i]) + Encodings(items[i + 1..])) ==
             (out.bytes + Encoding(items[i])) + Encodings(items[i + 1..]);
      WriteItem(out, items[i]);
    }
  }

  /** Finishing a section leaves what is before it alone and prefixes its body with the size. */
  lemma FinishedSection(before: seq<Byte>, body: seq<Byte>)
    ensures Finished(before + [0, 0, 0, 0, 0] + body, |before|) == before + (Shortest(false, |body|) + body)
  {
    var all := before + [0, 0, 0, 0, 0] + body;
    assert all[..|before|] == before && all[|before| + MAX_LEB32_BYTES..] == body;
  }

  // ---- Putting a section in front of another -----------------------------------------------

  lemma Grown(before: seq<Byte>, at: nat, n: nat)
    requires at <= |before|
    ensures var grown := before + Zeros(n);
            grown[..at] == before[..at] && grown[at..|before|] == before[at..]
  {
  }

  lemma Inserted(before: seq<Byte>, at: nat, data: seq<Byte>, moved: seq<Byte>)
    requires at <= |before| && |moved| == |before| + |data|
    requires moved[..at] == before[..at] && moved[at + |data|..|moved|] == before[at..]
    ensures Overwritten(moved, at, data) == before[..at] + data + before[at..]
  {
  }

  /** A finished section is put at `at`, and what was there moves up behind it. */
  method InsertSection(out: BufferWithRandomAccess, at: nat, data: seq<Byte>)
    requires at <= |out.bytes|
    modifies out
    ensures out.bytes == old(out.bytes)[..at] + data + old(out.bytes)[at..]
  {
    hide Written, WithByte, Overwritten, Zeros;
    ghost var before := out.bytes;
    var oldSize := |out.bytes|;
    out.Resize(oldSize + |data|);
    assert out.bytes == before + Zeros(|data|);
    Grown(before, at, |data|);
    out.MoveUp(at, at + |data|, oldSize - at);
    ghost var moved := out.bytes;
    Inserted(before, at, data, moved);
    WriteNothing(moved, at, data);
    for i := 0 to |data|
      invariant Written(moved, at, data, i, out.bytes)
    {
      WriteNext(moved, at, data, i, out.bytes);
      out.SetByte(at + i, data[i]);
    }
    WrittenAll(moved, at, data, out.bytes);
  }
}
