/**
 The offsets that src/wasm/wasm-binary.cpp records for the source map while it writes, and what
 becomes of them when size fields shrink and when a section is put in front of another.
 */
module Locations {
  import opened Wrappers
  import opened MachineInts
  import opened IntegerGrammar
  import opened WasmBinary

  /**
   What a writer does: record the current end of the buffer, put a byte, start a section or a function
   body, finish the innermost one, put a finished section in front of what was written from `at` on.
   */
  datatype Op = Mark | Put(b: Byte) | Start(body: bool) | Finish | Insert(at: nat, data: seq<Byte>)

  /**
   A recorded offset and the byte that was put there: the next one, or the first of the size field if
   that is what came next. Until then there is none.
   */
  datatype Location = Location(offset: int, byte: Option<Byte>)

  /** The offset of a placeholder, and how many locations were recorded when it was written. */
  datatype Region = Region(start: nat, count: nat, body: bool)

  /**
   A function body keeps its count in a local variable, while all sections share `sectionCount`;
   `shrunk` adds up the adjustments that were returned.
   */
  datatype State = State(bytes: seq<Byte>, open: seq<Region>, locations: seq<Location>, sectionCount: nat,
                         appended: nat, shrunk: int)

  const INITIAL := State([], [], [], 0, 0, 0)

  /** Which locations move: those recorded since a count, as the source has it, or those that lie in what moves. */
  datatype Rule = ByCount | ByPlace

  // ---- Steps ----------------------------------------------------------------------------------

  /** Locations that wait at `at` are for the byte `b`. */
  function Filled(locations: seq<Location>, at: int, b: Byte): seq<Location> {
    seq(|locations|, i requires 0 <= i < |locations| =>
      if locations[i] == Location(at, None) then Location(at, Some(b)) else locations[i])
  }

  predicate Moves(rule: Rule, l: Location, i: nat, first: nat, place: int) {
    if rule.ByCount? then i >= first else l.offset >= place
  }

  function Moved(rule: Rule, locations: seq<Location>, first: nat, place: int, amount: int): seq<Location> {
    seq(|locations|, i requires 0 <= i < |locations| =>
      if Moves(rule, locations[i], i, first, place) then Location(locations[i].offset + amount, locations[i].byte)
      else locations[i])
  }

  predicate CanFinish(s: State) {
    s.open != [] && s.open[|s.open| - 1].start + MAX_LEB32_BYTES <= |s.bytes|
  }

  predicate CanInsert(s: State, at: nat) {
    s.open == [] && at <= |s.bytes|
  }

  /** The count that is remembered for the innermost region. */
  function Since(s: State): nat
    requires s.open != []
  {
    var region := s.open[|s.open| - 1];
    if region.body then region.count else s.sectionCount
  }

  function Step(rule: Rule, s: State, op: Op): State {
    match op
    case Mark =>
      s.(locations := s.locations + [Location(|s.bytes|, None)])
    case Put(b) =>
      s.(bytes := s.bytes + [b], locations := Filled(s.locations, |s.bytes|, b), appended := s.appended + 1)
    case Start(body) =>
      s.(bytes := s.bytes + [0, 0, 0, 0, 0],
         open := s.open + [Region(|s.bytes|, |s.locations|, body)],
         sectionCount := if body then s.sectionCount else |s.locations|,
         appended := s.appended + MAX_LEB32_BYTES)
    case Finish =>
      if !CanFinish(s) then s
      else
        var start := s.open[|s.open| - 1].start;
        var adjustment := Adjustment(s.bytes, start);
        FinishedLength(s.bytes, start);
        var filled := Filled(s.locations, start, Finished(s.bytes, start)[start]);
        s.(bytes := Finished(s.bytes, start),
           open := s.open[..|s.open| - 1],
           locations := Moved(rule, filled, Since(s), start + MAX_LEB32_BYTES, -adjustment),
           shrunk := s.shrunk + adjustment)
    case Insert(at, data) =>
      if !CanInsert(s, at) then s
      else
        s.(bytes := s.bytes[..at] + data + s.bytes[at..],
           locations := Moved(rule, s.locations, 0, at, |data|),
           appended := s.appended + |data|)
  }

  lemma FinishedLength(bytes: seq<Byte>, start: nat)
    requires start + MAX_LEB32_BYTES <= |bytes|
    ensures |Finished(bytes, start)| + Adjustment(bytes, start) == |bytes|
    ensures |Finished(bytes, start)| > start
  {
    EncodeUnfold(false, |bytes| - start - MAX_LEB32_BYTES, 0);
  }

  function Run(rule: Rule, s: State, ops: seq<Op>): State
    decreases |ops|
  {
    if ops == [] then s else Run(rule, Step(rule, s, ops[0]), ops[1..])
  }

  /** No size exceeds 32 bits during the run. */
  ghost predicate SizesFit(rule: Rule, s: State, ops: seq<Op>)
    decreases |ops|
  {
    |s.bytes| < 0x1_0000_0000 && (ops == [] || SizesFit(rule, Step(rule, s, ops[0]), ops[1..]))
  }

  // ---- Invariants -----------------------------------------------------------------------------

  /** What was recorded before a region began is before it, or waits for its size field; the rest is in its payload. */
  ghost predicate Beside(region: Region, l: Location, k: nat) {
    if k < region.count then l.offset < region.start || l == Location(region.start, None)
    else region.start + MAX_LEB32_BYTES <= l.offset
  }

  ghost predicate RegionsApart(s: State) {
    && (forall i, j :: 0 <= i < j < |s.open| ==> s.open[i].start + MAX_LEB32_BYTES <= s.open[j].start)
    && (forall i :: 0 <= i < |s.open| ==> s.open[i].start + MAX_LEB32_BYTES <= |s.bytes|)
    && (forall i, k :: 0 <= i < |s.open| && 0 <= k < |s.locations| ==> Beside(s.open[i], s.locations[k], k))
  }

  /** No count is ahead of the locations, and the shared one is not behind that of an open section. */
  ghost predicate CountsOrdered(s: State) {
    && s.sectionCount <= |s.locations|
    && (forall i :: 0 <= i < |s.open| ==> s.open[i].count <= |s.locations|)
    && (forall i :: 0 <= i < |s.open| && !s.open[i].body ==> s.open[i].count <= s.sectionCount)
  }

  /** The location still has its byte, or it waits at the end or at the placeholder of an open region. */
  ghost predicate Points(s: State, l: Location) {
    match l.byte
    case Some(b) => 0 <= l.offset < |s.bytes| && s.bytes[l.offset] == b
    case None => l.offset == |s.bytes| || exists i :: 0 <= i < |s.open| && s.open[i].start == l.offset
  }

  ghost predicate AllPoint(s: State) {
    forall k :: 0 <= k < |s.locations| ==> Points(s, s.locations[k])
  }

  ghost predicate Inv(s: State) {
    RegionsApart(s) && CountsOrdered(s) && AllPoint(s) && |s.bytes| + s.shrunk == s.appended
  }

  // ---- Steps keep the invariant -------------------------------------------------------------

  lemma MarkKeepsInv(s: State)
    requires Inv(s)
    ensures Inv(Step(ByPlace, s, Mark))
  {
    var after := Step(ByPlace, s, Mark);
    forall k | 0 <= k < |after.locations| ensures Points(after, after.locations[k]) {
      if k < |s.locations| {
        assert Points(s, s.locations[k]);
      }
    }
    forall i, k | 0 <= i < |s.open| && 0 <= k < |after.locations| ensures Beside(s.open[i], after.locations[k], k) {
      if k < |s.locations| {
        assert Beside(s.open[i], s.locations[k], k);
      }
    }
  }

  lemma PutKeepsInv(s: State, b: Byte)
    requires Inv(s)
    ensures Inv(Step(ByPlace, s, Put(b)))
  {
    var after := Step(ByPlace, s, Put(b));
    forall k | 0 <= k < |s.locations| ensures Points(after, after.locations[k]) {
      assert Points(s, s.locations[k]);
    }
    forall i, k | 0 <= i < |s.open| && 0 <= k < |s.locations| ensures Beside(s.open[i], after.locations[k], k) {
      assert Beside(s.open[i], s.locations[k], k);
    }
  }

  lemma StartKeepsInv(s: State, body: bool)
    requires Inv(s)
    ensures Inv(Step(ByPlace, s, Start(body)))
  {
    var after := Step(ByPlace, s, Start(body));
    assert after.open[|s.open|] == Region(|s.bytes|, |s.locations|, body);
    forall k | 0 <= k < |s.locations| ensures Points(after, s.locations[k]) {
      assert Points(s, s.locations[k]);
      if i :| 0 <= i < |s.open| && s.open[i].start == s.locations[k].offset {
        assert after.open[i] == s.open[i];
      }
    }
    forall i, k | 0 <= i < |after.open| && 0 <= k < |s.locations| ensures Beside(after.open[i], s.locations[k], k) {
      if i < |s.open| {
        assert Beside(s.open[i], s.locations[k], k);
      } else {
        assert Points(s, s.locations[k]);
      }
    }
  }

  lemma InsertKeepsInv(s: State, at: nat, data: seq<Byte>)
    requires Inv(s) && CanInsert(s, at)
    ensures Inv(Step(ByPlace, s, Insert(at, data)))
  {
    var after := Step(ByPlace, s, Insert(at, data));
    forall k | 0 <= k < |s.locations| ensures Points(after, after.locations[k]) {
      assert Points(s, s.locations[k]);
    }
  }

  /** Finishing a region keeps a location in its payload, and one before it, on its byte. */
  lemma FinishKeepsByte(bytes: seq<Byte>, start: nat, offset: nat)
    requires start + MAX_LEB32_BYTES <= |bytes| && offset < |bytes|
    requires offset < start || start + MAX_LEB32_BYTES <= offset
    ensures var after := Finished(bytes, start);
            var at := if offset < start then offset else offset - Adjustment(bytes, start);
            0 <= at < |after| && after[at] == bytes[offset]
  {
    hide Encode, Shortest;
    FinishedLength(bytes, start);
  }

  lemma AdjustmentRange(bytes: seq<Byte>, start: nat)
    requires start + MAX_LEB32_BYTES <= |bytes| < 0x1_0000_0000
    ensures 0 <= Adjustment(bytes, start) < MAX_LEB32_BYTES
  {
    U32Length(|bytes| - start - MAX_LEB32_BYTES);
  }

  /** Where a location is after the innermost region was finished. */
  lemma FinishMoves(s: State, k: nat)
    requires Inv(s) && |s.bytes| < 0x1_0000_0000 && CanFinish(s) && k < |s.locations|
    ensures var top, after, l := s.open[|s.open| - 1], Step(ByPlace, s, Finish), s.locations[k];
            && |after.locations| == |s.locations|
            && Points(after, after.locations[k])
            && after.locations[k] ==
                 if l == Location(top.start, None) then Location(top.start, Some(after.bytes[top.start]))
                 else if k < top.count then l
                 else Location(l.offset - Adjustment(s.bytes, top.start), l.byte)
  {
    hide Finished, Adjustment;
    var top := |s.open| - 1;
    var start, l := s.open[top].start, s.locations[k];
    FinishedLength(s.bytes, start);
    AdjustmentRange(s.bytes, start);
    assert Beside(s.open[top], l, k) && Points(s, l);
    if l.byte.Some? {
      FinishKeepsByte(s.bytes, start, l.offset);
    } else if i :| 0 <= i < |s.open| && s.open[i].start == l.offset && l.offset != |s.bytes| && l.offset != start {
      assert Step(ByPlace, s, Finish).open[i] == s.open[i];
    }
  }

  lemma FinishKeepsApart(s: State)
    requires Inv(s) && |s.bytes| < 0x1_0000_0000 && CanFinish(s)
    ensures RegionsApart(Step(ByPlace, s, Finish))
  {
    var top := |s.open| - 1;
    var after := Step(ByPlace, s, Finish);
    FinishedLength(s.bytes, s.open[top].start);
    AdjustmentRange(s.bytes, s.open[top].start);
    hide Finished, Adjustment, Moved, Filled;
    assert after.open == s.open[..top] && |after.locations| == |s.locations|;
    forall i, k | 0 <= i < top && 0 <= k < |s.locations| ensures Beside(s.open[i], after.locations[k], k) {
      FinishMoves(s, k);
      assert Beside(s.open[i], s.locations[k], k) && Beside(s.open[top], s.locations[k], k);
    }
  }

  lemma FinishKeepsInv(s: State)
    requires Inv(s) && |s.bytes| < 0x1_0000_0000 && CanFinish(s)
    ensures Inv(Step(ByPlace, s, Finish))
  {
    var after := Step(ByPlace, s, Finish);
    FinishKeepsApart(s);
    FinishedLength(s.bytes, s.open[|s.open| - 1].start);
    hide Finished, Adjustment, Points, Filled, RegionsApart;
    forall k | 0 <= k < |s.locations| ensures Points(after, after.locations[k]) {
      FinishMoves(s, k);
    }
  }

  /** Moving what lies in the payload keeps every location on its byte, whatever was done before. */
  lemma StepKeepsInv(s: State, op: Op)
    requires Inv(s) && |s.bytes| < 0x1_0000_0000
    ensures Inv(Step(ByPlace, s, op))
  {
    match op
    case Mark => MarkKeepsInv(s);
    case Put(b) => PutKeepsInv(s, b);
    case Start(body) => StartKeepsInv(s, body);
    case Finish => if CanFinish(s) { FinishKeepsInv(s); }
    case Insert(at, data) => if CanInsert(s, at) { InsertKeepsInv(s, at, data); }
  }

  /**
   Over any run, if what lies in the payload moves with it, every location keeps its byte, and the buffer
   is shorter than what was appended by exactly the sum of the returned adjustments.
   */
  lemma {:induction false} PlacesStayValid(s: State, ops: seq<Op>)
    requires Inv(s) && SizesFit(ByPlace, s, ops)
    ensures Inv(Run(ByPlace, s, ops))
    decreases |ops|
  {
    hide Inv, Step;
    if ops != [] {
      StepKeepsInv(s, ops[0]);
      PlacesStayValid(Step(ByPlace, s, ops[0]), ops[1..]);
    }
  }

  // ---- When the counts say the same ---------------------------------------------------------

  /**
   Moving by count does no harm in this step: the remembered count is that of the region's own beginning,
   everything recorded lies in what is moved up, or nothing moves at all.
   */
  ghost predicate Aligned(s: State, op: Op) {
    match op
    case Finish =>
      CanFinish(s) ==>
        var top := s.open[|s.open| - 1];
        Since(s) == top.count || Adjustment(s.bytes, top.start) == 0
    case Insert(at, data) =>
      CanInsert(s, at) && data != [] ==> forall k :: 0 <= k < |s.locations| ==> at <= s.locations[k].offset
    case _ => true
  }

  lemma MovedAlike(locations: seq<Location>, first: nat, place: int, amount: int)
    ensures Moved(ByCount, locations, first, place, amount) == Moved(ByPlace, locations, first, place, amount)
       <==> amount == 0 || forall k :: 0 <= k < |locations| ==> (first <= k <==> place <= locations[k].offset)
  {
    var a, b := Moved(ByCount, locations, first, place, amount), Moved(ByPlace, locations, first, place, amount);
    if amount != 0 && a == b {
      forall k | 0 <= k < |locations| ensures first <= k <==> place <= locations[k].offset {
        assert a[k] == b[k];
      }
    }
  }

  /** In the innermost region, counting from its beginning and lying in its payload are the same. */
  lemma CountsFromBeginning(s: State, locations: seq<Location>)
    requires RegionsApart(s) && CountsOrdered(s) && s.open != [] && |locations| == |s.locations|
    requires forall k :: 0 <= k < |locations| ==> locations[k].offset == s.locations[k].offset
    ensures var top := s.open[|s.open| - 1];
            (forall k :: 0 <= k < |locations| ==>
               (Since(s) <= k <==> top.start + MAX_LEB32_BYTES <= locations[k].offset))
            <==> Since(s) == top.count
  {
    var top := |s.open| - 1;
    forall k | 0 <= k < |locations|
      ensures s.open[top].count <= k <==> s.open[top].start + MAX_LEB32_BYTES <= locations[k].offset
    {
      assert Beside(s.open[top], s.locations[k], k);
    }
    var k := s.open[top].count;
    if Since(s) != k {
      assert k < |locations| && s.open[top].start + MAX_LEB32_BYTES <= locations[k].offset;
    }
  }

  /** One step moves the same locations by count and by place if and only if it is aligned. */
  lemma CountIsPlace(s: State, op: Op)
    requires Inv(s)
    ensures Step(ByCount, s, op) == Step(ByPlace, s, op) <==> Aligned(s, op)
  {
    match op
    case Finish =>
      if CanFinish(s) {
        var start := s.open[|s.open| - 1].start;
        FinishedLength(s.bytes, start);
        var filled := Filled(s.locations, start, Finished(s.bytes, start)[start]);
        hide Moved, Adjustment, Finished;
        MovedAlike(filled, Since(s), start + MAX_LEB32_BYTES, -Adjustment(s.bytes, start));
        CountsFromBeginning(s, filled);
      }
    case Insert(at, data) =>
      hide Moved;
      MovedAlike(s.locations, 0, at, |data|);
    case _ =>
  }

  // ---- Runs that move by count ------------------------------------------------------------------

  /** Every step of the run moves what lies in what is moved. */
  ghost predicate MovesPlaces(s: State, ops: seq<Op>)
    decreases |ops|
  {
    ops == [] ||
    (Step(ByCount, s, ops[0]) == Step(ByPlace, s, ops[0]) && MovesPlaces(Step(ByCount, s, ops[0]), ops[1..]))
  }

  /** Every step of the run is aligned. */
  ghost predicate AllAligned(s: State, ops: seq<Op>)
    decreases |ops|
  {
    ops == [] || (Aligned(s, ops[0]) && AllAligned(Step(ByCount, s, ops[0]), ops[1..]))
  }

  /** A run by count moves the right locations in every step if and only if every step is aligned. */
  lemma {:induction false} AlignedExactly(s: State, ops: seq<Op>)
    requires Inv(s) && SizesFit(ByCount, s, ops)
    ensures MovesPlaces(s, ops) <==> AllAligned(s, ops)
    decreases |ops|
  {
    hide Inv, Step, Aligned;
    if ops != [] {
      CountIsPlace(s, ops[0]);
      if Aligned(s, ops[0]) {
        StepKeepsInv(s, ops[0]);
        AlignedExactly(Step(ByCount, s, ops[0]), ops[1..]);
      }
    }
  }

  /** An aligned run by count is the run by place. */
  lemma {:induction false} AlignedRun(s: State, ops: seq<Op>)
    requires Inv(s) && SizesFit(ByCount, s, ops) && AllAligned(s, ops)
    ensures Run(ByCount, s, ops) == Run(ByPlace, s, ops) && SizesFit(ByPlace, s, ops)
    decreases |ops|
  {
    hide Inv, Step, Aligned;
    if ops != [] {
      CountIsPlace(s, ops[0]);
      StepKeepsInv(s, ops[0]);
      AlignedRun(Step(ByCount, s, ops[0]), ops[1..]);
    }
  }

  /** Over any aligned run by count, every location keeps its byte. */
  lemma LocationsStayValid(s: State, ops: seq<Op>)
    requires Inv(s) && SizesFit(ByCount, s, ops) && AllAligned(s, ops)
    ensures Inv(Run(ByCount, s, ops))
  {
    AlignedRun(s, ops);
    PlacesStayValid(s, ops);
  }

  /** The same from the empty buffer, and what it says of the buffer's length. */
  lemma RunFromEmpty(ops: seq<Op>)
    requires SizesFit(ByCount, INITIAL, ops) && AllAligned(INITIAL, ops)
    ensures var s := Run(ByCount, INITIAL, ops);
            AllPoint(s) && |s.bytes| + s.shrunk == s.appended
  {
    hide Run, SizesFit, AllAligned;
    LocationsStayValid(INITIAL, ops);
  }

  // ---- How the writer uses it -----------------------------------------------------------------

  /** The shared count is that of every open section. */
  ghost predicate CountsAgree(s: State) {
    forall i :: 0 <= i < |s.open| && !s.open[i].body ==> s.open[i].count == s.sectionCount
  }

  /**
   A section does not begin inside another one in which something was recorded, and a section is put
   in front of everything that was recorded.
   */
  ghost predicate Orderly(s: State, op: Op) {
    match op
    case Start(body) => !body ==> forall i :: 0 <= i < |s.open| && !s.open[i].body ==> s.open[i].count == |s.locations|
    case Insert(_, _) => Aligned(s, op)
    case _ => true
  }

  ghost predicate AllOrderly(s: State, ops: seq<Op>)
    decreases |ops|
  {
    ops == [] || (Orderly(s, ops[0]) && AllOrderly(Step(ByCount, s, ops[0]), ops[1..]))
  }

  /** An orderly run is aligned. */
  lemma {:induction false} OrderlyAligned(s: State, ops: seq<Op>)
    requires CountsAgree(s) && AllOrderly(s, ops)
    ensures AllAligned(s, ops)
    decreases |ops|
  {
    hide Adjustment, Finished, Moved, Filled;
    if ops != [] {
      OrderlyAligned(Step(ByCount, s, ops[0]), ops[1..]);
    }
  }

  // ---- A run that is not aligned --------------------------------------------------------------

  lemma RunNext(s: State, op: Op, ops: seq<Op>)
    ensures Run(ByCount, s, [op] + ops) == Run(ByCount, Step(ByCount, s, op), ops)
  {
    hide Step;
    assert ([op] + ops)[1..] == ops;
  }

  lemma RunThree(s: State, a: Op, b: Op, c: Op, ops: seq<Op>)
    ensures Run(ByCount, s, [a, b, c] + ops)
         == Run(ByCount, Step(ByCount, Step(ByCount, Step(ByCount, s, a), b), c), ops)
  {
    hide Step, Run;
    assert [a] + ([b, c] + ops) == [a, b, c] + ops && [b] + ([c] + ops) == [b, c] + ops;
    RunNext(s, a, [b, c] + ops);
    RunNext(Step(ByCount, s, a), b, [c] + ops);
    RunNext(Step(ByCount, Step(ByCount, s, a), b), c, ops);
  }

  lemma RunNothing(s: State)
    ensures Run(ByCount, s, []) == s
  {
  }

  /** One finishing step without waiting locations, with everything written out. */
  lemma FinishOne(s: State, size: nat, bytes: seq<Byte>)
    requires CanFinish(s) && s.open[|s.open| - 1].start + MAX_LEB32_BYTES + size == |s.bytes| && size < 64
    requires !s.open[|s.open| - 1].body && |s.locations| <= s.sectionCount
    requires forall k :: 0 <= k < |s.locations| ==> s.locations[k].byte.Some?
    requires var start := s.open[|s.open| - 1].start;
             bytes == s.bytes[..start] + [size] + s.bytes[start + MAX_LEB32_BYTES..]
    ensures Step(ByCount, s, Finish).bytes == bytes && Step(ByCount, s, Finish).locations == s.locations
    ensures Step(ByCount, s, Finish).open == s.open[..|s.open| - 1]
    ensures Step(ByCount, s, Finish).sectionCount == s.sectionCount
  {
    assert Shortest(false, size) == [size];
    hide Shortest;
  }

  lemma SectionInSection(b: Byte)
    ensures var s3 := Step(ByCount, Step(ByCount, Step(ByCount, INITIAL, Start(false)), Mark), Put(b));
            Step(ByCount, s3, Start(false))
              == State([0, 0, 0, 0, 0, b, 0, 0, 0, 0, 0], [Region(0, 0, false), Region(6, 1, false)],
                       [Location(5, Some(b))], 1, 11, 0)
  {
    var s2 := Step(ByCount, Step(ByCount, INITIAL, Start(false)), Mark);
    assert s2 == State([0, 0, 0, 0, 0], [Region(0, 0, false)], [Location(5, None)], 0, 5, 0);
    var s3 := Step(ByCount, s2, Put(b));
    assert s3 == State([0, 0, 0, 0, 0, b], [Region(0, 0, false)], [Location(5, Some(b))], 0, 6, 0);
  }

  /** Since sections share one count, a location recorded before an inner section is left behind. */
  lemma LeftBehind(b: Byte)
    ensures var s := Run(ByCount, INITIAL, [Start(false), Mark, Put(b), Start(false), Finish, Finish]);
            s.bytes == [2, b, 0] && s.locations == [Location(5, Some(b))]
  {
    hide Run, Step;
    assert [Start(false), Mark, Put(b)] + ([Start(false), Finish, Finish] + [])
        == [Start(false), Mark, Put(b), Start(false), Finish, Finish];
    RunThree(INITIAL, Start(false), Mark, Put(b), [Start(false), Finish, Finish] + []);
    var s3 := Step(ByCount, Step(ByCount, Step(ByCount, INITIAL, Start(false)), Mark), Put(b));
    RunThree(s3, Start(false), Finish, Finish, []);
    var s4 := Step(ByCount, s3, Start(false));
    SectionInSection(b);
    FinishOne(s4, 0, [0, 0, 0, 0, 0, b, 0]);
    FinishOne(Step(ByCount, s4, Finish), 2, [2, b, 0]);
    RunNothing(Step(ByCount, Step(ByCount, s4, Finish), Finish));
  }
}
