/** How `ShellExternalInterface` of src/shell-interface.h creates and grows its memories. */
module ShellInterface {
  import opened MachineInts
  import opened ShellMemory

  /** A memory defined by the module: its initial size in pages, and the log of the page size. */
  datatype MemoryDef = MemoryDef(name: string, initial: nat, pageSizeLog2: nat)

  datatype Outcome = Done | HostLimit | Trap

  // ---- The size computation -----------------------------------------------------------

  const TWO_64 := 0x1_0000_0000_0000_0000

  /** The size in bytes, as a 64-bit shift computes it. */
  function ShiftedBytes(initial: nat, pageSizeLog2: nat): nat {
    (initial * Pow2(pageSizeLog2)) % TWO_64
  }

  /** The test that `init` makes before it allocates. */
  predicate Accepts(initial: nat, pageSizeLog2: nat) {
    var bytes := ShiftedBytes(initial, pageSizeLog2);
    bytes / Pow2(pageSizeLog2) == initial && bytes <= MAX_MEMORY_SIZE
  }

  lemma Pow2Sixteen()
    ensures Pow2(16) == 0x1_0000
  {
    assert Pow2(8) == 0x100;
    Pow2Add(8, 8);
  }

  lemma Pow2SixtyFour()
    ensures Pow2(64) == TWO_64
  {
    hide Pow2;
    Pow2Sixteen();
    Pow2Add(16, 16);
    Pow2Add(32, 32);
  }

  lemma MulLeft(p: nat, a: nat, b: nat)
    requires a <= b
    ensures p * a <= p * b
  {
  }

  lemma QuotientBelow(x: nat, p: nat, q: nat)
    requires p > 0 && x < p * q
    ensures x / p < q
  {
    var k := x / p;
    assert p * k <= x;
    if k >= q {
      MulLeft(p, q, k);
    }
  }

  lemma ExactQuotient(a: nat, p: nat)
    requires p > 0
    ensures a * p / p == a
  {
    DivModUnique(a * p, p, a, 0);
  }

  /** Shifting by `p` within `m == p * q` loses nothing exactly when the value is below `q`. */
  lemma ShiftBack(a: nat, p: nat, q: nat, m: nat)
    requires p > 0 && m > 0 && m == p * q
    ensures a < q <==> a * p < m
    ensures a * p < m ==> (a * p) % m == a * p && (a * p) % m / p == a
    ensures a * p >= m ==> (a * p) % m / p != a
  {
    if a < q {
      MulLeft(p, a + 1, q);
      Small(a * p, m);
      ExactQuotient(a, p);
    } else {
      MulLeft(p, q, a);
      QuotientBelow((a * p) % m, p, q);
    }
  }

  /** The shift-back test on 64-bit values is the comparison in unbounded arithmetic. */
  lemma AcceptsExactly(initial: nat, pageSizeLog2: nat)
    requires initial < TWO_64 && pageSizeLog2 < 64
    ensures Accepts(initial, pageSizeLog2) <==> initial * Pow2(pageSizeLog2) <= 0x4000_0000
    ensures Accepts(initial, pageSizeLog2) ==> ShiftedBytes(initial, pageSizeLog2) == initial * Pow2(pageSizeLog2)
  {
    hide Pow2;
    Pow2SixtyFour();
    Pow2Add(pageSizeLog2, 64 - pageSizeLog2);
    ShiftBack(initial, Pow2(pageSizeLog2), Pow2(64 - pageSizeLog2), TWO_64);
  }

  lemma Small(x: nat, m: nat)
    requires x < m
    ensures x % m == x
  {
  }

  // ---- The memories -------------------------------------------------------------------

  predicate LastOfItsName(defs: seq<MemoryDef>, j: nat, i: nat)
    requires j < i <= |defs|
  {
    forall k :: j < k < i ==> defs[k].name != defs[j].name
  }

  class ShellExternalInterface {
    var memories: map<string, Memory>

    /** Each memory is valid and within the limit, and no two names share one. */
    ghost predicate Valid()
      reads this, memories.Values
    {
      && (forall n :: n in memories ==> memories[n].Valid() && memories[n].size <= 0x4000_0000)
      && (forall m, n :: m in memories && n in memories && m != n ==> memories[m] != memories[n])
    }

    constructor ()
      ensures Valid() && memories == map[]
    {
      memories := map[];
    }

    /** Create one of the module's memories, unless it is over the limit. */
    method InitMemory(def: MemoryDef) returns (outcome: Outcome)
      requires Valid() && def.initial < TWO_64 && def.pageSizeLog2 < 64
      modifies this
      ensures Valid() && outcome != Trap
      ensures outcome == Done <==> def.initial * Pow2(def.pageSizeLog2) <= 0x4000_0000
      ensures outcome == Done ==>
                && def.name in memories && fresh(memories[def.name])
                && memories == old(memories)[def.name := memories[def.name]]
                && memories[def.name].Contents() == Zeros(def.initial * Pow2(def.pageSizeLog2))
      ensures outcome == HostLimit ==> memories == old(memories)
    {
      AcceptsExactly(def.initial, def.pageSizeLog2);
      hide Pow2;
      var bytes := ShiftedBytes(def.initial, def.pageSizeLog2);
      if bytes / Pow2(def.pageSizeLog2) != def.initial || bytes > MAX_MEMORY_SIZE {
        return HostLimit;
      }
      var shellMemory := new Memory();
      shellMemory.Resize(bytes);
      memories := memories[def.name := shellMemory];
      return Done;
    }

    /** Among the first `i` memories, each that no later one replaces is there, full of zeros. */
    ghost predicate Initialized(defs: seq<MemoryDef>, i: nat)
      requires Valid() && i <= |defs|
      reads this, memories.Values
    {
      forall j :: 0 <= j < i && LastOfItsName(defs, j, i) ==>
        && defs[j].name in memories
        && memories[defs[j].name].Contents() == Zeros(defs[j].initial * Pow2(defs[j].pageSizeLog2))
    }

    /** Create the module's memories in order; the first that is over the limit stops it. */
    method Init(defs: seq<MemoryDef>) returns (outcome: Outcome)
      requires Valid()
      requires forall i :: 0 <= i < |defs| ==> defs[i].initial < TWO_64 && defs[i].pageSizeLog2 < 64
      modifies this
      ensures Valid() && outcome != Trap
      ensures outcome == Done <==>
                forall i :: 0 <= i < |defs| ==> defs[i].initial * Pow2(defs[i].pageSizeLog2) <= 0x4000_0000
      ensures outcome == Done ==> Initialized(defs, |defs|)
      ensures forall n :: n in old(memories) ==> n in memories
    {
      hide Pow2;
      for i := 0 to |defs|
        invariant Valid() && Initialized(defs, i)
        invariant forall n :: n in old(memories) ==> n in memories
        invariant forall j :: 0 <= j < i ==> defs[j].initial * Pow2(defs[j].pageSizeLog2) <= 0x4000_0000
      {
        outcome := InitMemory(defs[i]);
        if outcome != Done {
          return;
        }
      }
      outcome := Done;
    }

    /** Grow (or in principle shrink) a memory to a size in bytes. */
    method GrowMemory(name: string, newSize: nat) returns (outcome: Outcome)
      requires Valid()
      modifies memories.Values
      ensures Valid() && memories == old(memories)
      ensures outcome == if newSize > 0x4000_0000 then HostLimit else if name !in memories then Trap else Done
      ensures outcome == Done ==>
                && memories[name].Contents() == VectorResize(old(memories[name].Contents()), newSize)
                && forall n :: n in memories && n != name ==> unchanged(memories[n])
      ensures outcome != Done ==> forall n :: n in memories ==> unchanged(memories[n])
    {
      if newSize > MAX_MEMORY_SIZE {
        return HostLimit;
      }
      if name !in memories {
        return Trap;
      }
      memories[name].Resize(newSize);
      return Done;
    }

    /** Store an integer; the caller has checked the bounds. */
    method StoreInt(t: IntType, address: nat, value: int, name: string)
      requires Valid() && name in memories
      requires t.bits % 8 == 0 && address + t.bits / 8 <= memories[name].size
      modifies memories[name]
      ensures Valid()
      ensures memories[name].Contents() ==
              Overwritten(old(memories[name].Contents()), address, LittleEndian(Pattern(t, value), t.bits / 8))
    {
      memories[name].Set(t, address, value);
    }

    method LoadInt(t: IntType, address: nat, name: string) returns (value: int)
      requires Valid() && name in memories
      requires t.bits % 8 == 0 && t.bits > 0 && address + t.bits / 8 <= memories[name].size
      ensures value == FromPattern(t, FromLittleEndian(memories[name].Contents()[address..address + t.bits / 8]))
    {
      value := memories[name].Get(t, address);
    }
  }
}
