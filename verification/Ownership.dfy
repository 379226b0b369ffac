/** What the decode has at an address, who owns a range, and what uncovered bytes amount to. */
module Ownership {
  import opened Wrappers
  import opened Image
  import opened Functions
  import opened Decoder

  // ----- boundaries -----

  datatype BoundaryKind = INSTRUCTION_START | INSTRUCTION_INTERIOR | NEVER_DECODED

  datatype Boundary = Boundary(rva: int, kind: BoundaryKind, start: Option<int>, size: nat, offset: int,
                               origin: Origin, owner: Option<nat>, ownerKind: OwnerKind, reason: Option<Failure>)

  /** The three-way split of mapped addresses: an instruction starts there, one covers it from
      further down, or neither. */
  ghost predicate IsBoundary(image: Image, sizes: seq<nat>, b: Boundary) {
    var inside := IsMapped(image, b.rva);
    && (b.kind == INSTRUCTION_START <==> inside && Recorded(sizes, b.rva))
    && (b.kind == INSTRUCTION_INTERIOR <==>
          inside && !Recorded(sizes, b.rva) && exists s :: Covers(sizes, s, b.rva))
    && (b.kind == INSTRUCTION_START ==> b.start == Some(b.rva) && b.size == sizes[b.rva] && b.offset == 0)
    && (b.kind == INSTRUCTION_INTERIOR ==>
          b.start.Some? && Covers(sizes, b.start.value, b.rva) && b.size == sizes[b.start.value]
          && b.offset == b.rva - b.start.value && 0 < b.offset < b.size
          && forall s :: b.start.value < s ==> !Covers(sizes, s, b.rva))
    && (b.kind == NEVER_DECODED ==> b.start == None && b.size == 0 && b.offset == 0)
  }

  function OriginAt(origins: map<int, Origin>, start: int): Origin { if start in origins then origins[start] else None }

  method BoundaryOf(decoder: InstructionDecoder, functions: FunctionTable, rva: int) returns (b: Boundary)
    requires decoder.Valid() && functions.Coherent() && functions.image == Some(decoder.image)
    modifies functions`sorted, functions`extentsCache
    ensures functions.Coherent() && decoder.Valid()
    ensures b.rva == rva && IsBoundary(decoder.image, decoder.sizeAt[..], b)
    ensures Owns(functions.image, functions.starts, functions.claimed, rva, b.owner, b.ownerKind)
    ensures b.kind != NEVER_DECODED ==>
              b.reason == None && b.start.Some? && b.origin == OriginAt(decoder.originAt, b.start.value)
    ensures b.kind == NEVER_DECODED ==> b.reason == decoder.FailureReason(rva) && b.origin == None
    ensures b.reason.Some? ==> b.reason == FailureOf(decoder.image, rva)
  {
    var start, size, kind := WhatIsAt(decoder, rva);
    var owner, ownerKind := functions.OwnerOf(rva);
    var origin := if start.Some? then OriginAt(decoder.originAt, start.value) else None;
    b := Boundary(rva, kind, start, size, if start.Some? then rva - start.value else 0, origin, owner, ownerKind,
                  if kind == NEVER_DECODED then decoder.FailureReason(rva) else None);
  }

  method WhatIsAt(decoder: InstructionDecoder, rva: int) returns (start: Option<int>, size: nat, kind: BoundaryKind)
    requires decoder.Valid()
    ensures IsBoundary(decoder.image, decoder.sizeAt[..],
                       Boundary(rva, kind, start, size, if start.Some? then rva - start.value else 0,
                                None, None, UNMAPPED, None))
  {
    hide Conserved, InstructionDecoder.CacheOk;
    if !IsMapped(decoder.image, rva) { return None, 0, NEVER_DECODED; }
    MappedIsInSpan(decoder.image, rva);
    EnclosingExactly(decoder.image, decoder.sizeAt[..], rva);
    hide SizesOk, DisassemblerOk;
    var decoded := decoder.IsDecoded(rva);
    if decoded { return Some(rva), decoder.sizeAt[rva], INSTRUCTION_START; }
    start := decoder.EnclosingInstruction(rva);
    if start.None? { return None, 0, NEVER_DECODED; }
    return start, decoder.sizeAt[start.value], INSTRUCTION_INTERIOR;
  }

  // ----- owners over a range -----

  /** The owner kind of an address. */
  ghost function KindAt(t: Table, rva: int): OwnerKind {
    if rva < 0 || (t.image.Some? && !IsMapped(t.image.value, rva)) then UNMAPPED
    else if forall s :: s in t.starts ==> s > rva then BEFORE
    else if rva in t.starts then START
    else if exists s :: InExtent(t.starts, t.claimed, s, rva) then BODY
    else if exists s :: s in t.starts && s > rva then GAP
    else AFTER
  }

  /** What the owner of an address depends on. */
  datatype Table = Table(image: Option<Image>, starts: set<nat>, claimed: Sizes)

  lemma OwnerKindIs(t: Table, rva: int, owner: Option<nat>, kind: OwnerKind)
    requires Owns(t.image, t.starts, t.claimed, rva, owner, kind)
    ensures kind == KindAt(t, rva)
  {
  }

  /** Which addresses are counted. */
  type Marking = int -> bool

  ghost function OfKind(t: Table, k: OwnerKind): Marking { x => KindAt(t, x) == k }

  /** How many addresses of a range there are. */
  ghost function Count(marked: Marking, lo: int, hi: int): nat
    decreases hi - lo
  {
    if hi <= lo then 0 else Count(marked, lo, hi - 1) + if marked(hi - 1) then 1 else 0
  }

  /** No function starts inside a decoded instruction, and its bytes are mapped. */
  ghost predicate Aligned(t: Table, sizes: seq<nat>) {
    forall a, x :: Recorded(sizes, a) && a < x < a + sizes[a] ==>
      x !in t.starts && (t.image.Some? ==> IsMapped(t.image.value, x))
  }

  /** Then an instruction whose first and last bytes have one kind has it throughout. */
  lemma ChunkIsUniform(t: Table, sizes: seq<nat>, a: int, last: int, x: int)
    requires Aligned(t, sizes) && Recorded(sizes, a) && a <= x <= last < a + sizes[a]
    requires KindAt(t, a) == KindAt(t, last) && (t.image.Some? ==> IsMapped(t.image.value, a))
    ensures KindAt(t, x) == KindAt(t, a)
  {
    hide Reached, IsMapped;
    forall s | s in t.starts ensures s <= a || s >= a + sizes[a] { }
    forall s: nat | InExtent(t.starts, t.claimed, s, last) && s <= a ensures InExtent(t.starts, t.claimed, s, x) {
      ExtentsAreDownwardClosed(t, s, x, last);
    }
    forall s: nat | InExtent(t.starts, t.claimed, s, x) && s <= a ensures InExtent(t.starts, t.claimed, s, a) {
      ExtentsAreDownwardClosed(t, s, a, x);
    }
  }

  lemma ExtentsAreDownwardClosed(t: Table, s: nat, x: int, y: int)
    requires InExtent(t.starts, t.claimed, s, y) && s <= x <= y
    ensures InExtent(t.starts, t.claimed, s, x)
  {
  }

  /** A decoded instruction starts here, on a mapped address. */
  ghost predicate StartsHere(t: Table, sizes: seq<nat>, rva: int) {
    Recorded(sizes, rva) && (t.image.Some? ==> IsMapped(t.image.value, rva))
  }

  /** The bytes counted in one go: an instruction, as far as the range goes, whose two ends have
      one kind, or else one byte. */
  ghost function ChunkAt(t: Table, sizes: seq<nat>, rva: int, most: int): (run: nat)
    requires most >= 1
    ensures 1 <= run <= most
  {
    var whole := if StartsHere(t, sizes, rva) then Max(1, Min(sizes[rva], most)) else 1;
    if KindAt(t, rva + whole - 1) == KindAt(t, rva) then whole else 1
  }

  /** What the walk over a range counts for a marking: each chunk as its first byte. */
  ghost function Counted(t: Table, sizes: seq<nat>, marked: Marking, lo: int, hi: int): nat
    decreases hi - lo
  {
    if hi <= lo then 0
    else
      var run := ChunkAt(t, sizes, lo, hi - lo);
      (if marked(lo) then run else 0) + Counted(t, sizes, marked, lo + run, hi)
  }

  /** [a, last] is counted in one go by a walk that starts at a and ends behind last. */
  ghost predicate IsChunk(t: Table, sizes: seq<nat>, a: int, last: int) {
    StartsHere(t, sizes, a) && a <= last < a + sizes[a] && KindAt(t, a) == KindAt(t, last)
  }

  /** No chunk has a byte that is marked otherwise than its first one. */
  ghost predicate ChunksUniform(t: Table, sizes: seq<nat>, marked: Marking) {
    forall a, last, x :: IsChunk(t, sizes, a, last) && a <= x <= last ==> marked(x) == marked(a)
  }

  lemma AlignedIsUniform(t: Table, sizes: seq<nat>, k: OwnerKind)
    requires Aligned(t, sizes)
    ensures ChunksUniform(t, sizes, OfKind(t, k))
  {
    hide Aligned, KindAt;
    forall a, last, x | IsChunk(t, sizes, a, last) && a <= x <= last ensures KindAt(t, x) == KindAt(t, a) {
      ChunkIsUniform(t, sizes, a, last, x);
    }
  }

  lemma {:induction false} CountsAdd(marked: Marking, lo: int, mid: int, hi: int)
    requires lo <= mid <= hi
    ensures Count(marked, lo, hi) == Count(marked, lo, mid) + Count(marked, mid, hi)
    decreases hi - mid
  {
    if mid < hi { CountsAdd(marked, lo, mid, hi - 1); }
  }

  lemma {:induction false} CountAlike(marked: Marking, value: bool, lo: int, run: nat)
    requires forall x :: lo <= x < lo + run ==> marked(x) == value
    ensures Count(marked, lo, lo + run) == if value then run else 0
    decreases run
  {
    if run > 0 { CountAlike(marked, value, lo, run - 1); }
  }

  /** A range in which some byte is marked and some is not counts in between. */
  lemma {:induction false} CountMixed(marked: Marking, lo: int, hi: int, x: int)
    requires lo <= x < hi
    ensures marked(x) ==> Count(marked, lo, hi) > 0
    ensures !marked(x) ==> Count(marked, lo, hi) < hi - lo
    decreases hi - lo
  {
    if x < hi - 1 { CountMixed(marked, lo, hi - 1, x); } else { CountAtMost(marked, lo, hi - 1); }
  }

  lemma {:induction false} CountAtMost(marked: Marking, lo: int, hi: int)
    requires lo <= hi
    ensures Count(marked, lo, hi) <= hi - lo
    decreases hi - lo
  {
    if lo < hi { CountAtMost(marked, lo, hi - 1); }
  }

  lemma ChunkIsChunk(t: Table, sizes: seq<nat>, rva: int, most: int)
    requires most >= 1
    ensures var run := ChunkAt(t, sizes, rva, most); run > 1 ==> IsChunk(t, sizes, rva, rva + run - 1)
  {
    hide KindAt;
  }

  lemma {:induction false} UniformCounts(t: Table, sizes: seq<nat>, marked: Marking, lo: int, hi: int)
    requires ChunksUniform(t, sizes, marked)
    ensures Counted(t, sizes, marked, lo, hi) == Count(marked, lo, hi)
    decreases hi - lo
  {
    hide ChunkAt, IsChunk;
    if lo < hi {
      var run := ChunkAt(t, sizes, lo, hi - lo);
      ChunkIsChunk(t, sizes, lo, hi - lo);
      forall x | lo <= x < lo + run ensures marked(x) == marked(lo) { }
      CountAlike(marked, marked(lo), lo, run);
      UniformCounts(t, sizes, marked, lo + run, hi);
      CountsAdd(marked, lo, lo + run, hi);
    }
  }

  /** The walk counts a marking right over every range exactly when no chunk hides a byte that is
      marked otherwise than its first one. */
  lemma CountsExactly(t: Table, sizes: seq<nat>, marked: Marking)
    ensures (forall lo, hi :: Counted(t, sizes, marked, lo, hi) == Count(marked, lo, hi))
            <==> ChunksUniform(t, sizes, marked)
  {
    hide IsChunk, ChunkAt;
    if ChunksUniform(t, sizes, marked) {
      forall lo, hi ensures Counted(t, sizes, marked, lo, hi) == Count(marked, lo, hi) {
        UniformCounts(t, sizes, marked, lo, hi);
      }
    } else {
      var a, last, x :| IsChunk(t, sizes, a, last) && a <= x <= last && marked(x) != marked(a);
      HiddenByte(t, sizes, marked, a, last, x);
    }
  }

  lemma ChunkTakenWhole(t: Table, sizes: seq<nat>, a: int, last: int)
    requires IsChunk(t, sizes, a, last)
    ensures a <= last && ChunkAt(t, sizes, a, last + 1 - a) == last + 1 - a
  {
    hide KindAt, IsMapped;
  }

  lemma HiddenByte(t: Table, sizes: seq<nat>, marked: Marking, a: int, last: int, x: int)
    requires IsChunk(t, sizes, a, last) && a <= x <= last && marked(x) != marked(a)
    ensures Counted(t, sizes, marked, a, last + 1) != Count(marked, a, last + 1)
  {
    ChunkTakenWhole(t, sizes, a, last);
    hide ChunkAt, IsChunk, Count;
    assert Counted(t, sizes, marked, last + 1, last + 1) == 0;
    CountMixed(marked, a, last + 1, x);
  }

  /** An instruction of four bytes at 2 in which another function starts at 4: both its ends lie
      in bodies, so all four bytes count as body, and the function's start does not count. */
  lemma StraddledStartIsMissed()
    ensures var t := Table(None, {0, 4}, map[0 := 2, 2 := 4, 4 := 4]);
            var sizes := [2, 0, 4, 0, 4, 0, 0, 0];
            && KindAt(t, 2) == BODY && KindAt(t, 4) == START && KindAt(t, 5) == BODY
            && Counted(t, sizes, OfKind(t, BODY), 2, 6) == 4 && Count(OfKind(t, BODY), 2, 6) < 4
  {
    var t := Table(None, {0, 4}, map[0 := 2, 2 := 4, 4 := 4]);
    var sizes: seq<nat> := [2, 0, 4, 0, 4, 0, 0, 0];
    assert Precedes(t.starts, 0, 2) && Precedes(t.starts, 4, 4) && t.claimed[2] == 4 && t.claimed[4] == 4;
    assert Reached(t.starts, t.claimed, t.claimed.Keys, 0, 2) && Reached(t.starts, t.claimed, t.claimed.Keys, 4, 5);
    assert InExtent(t.starts, t.claimed, 0, 2) && InExtent(t.starts, t.claimed, 4, 5);
    hide KindAt;
    assert ChunkAt(t, sizes, 2, 4) == 4;
    assert Counted(t, sizes, OfKind(t, BODY), 6, 6) == 0;
    CountMixed(OfKind(t, BODY), 2, 6, 4);
  }

  // ----- boundaries over a range -----

  /** The three-way split of addresses. */
  ghost function BoundaryKindAt(t: Table, sizes: seq<nat>, rva: int): BoundaryKind {
    if StartsHere(t, sizes, rva) then INSTRUCTION_START
    else if (t.image.Some? ==> IsMapped(t.image.value, rva)) && exists s :: Covers(sizes, s, rva) then
      INSTRUCTION_INTERIOR
    else NEVER_DECODED
  }

  ghost function OfBoundary(t: Table, sizes: seq<nat>, k: BoundaryKind): Marking {
    x => BoundaryKindAt(t, sizes, x) == k
  }

  lemma BoundaryKindIs(t: Table, image: Image, sizes: seq<nat>, b: Boundary)
    requires IsBoundary(image, sizes, b) && t.image == Some(image)
    ensures b.kind == BoundaryKindAt(t, sizes, b.rva)
  {
    hide IsMapped;
  }

  /** How many chunks of the walk start with an instruction. */
  ghost function CountedStarts(t: Table, sizes: seq<nat>, lo: int, hi: int): nat
    decreases hi - lo
  {
    if hi <= lo then 0
    else (if StartsHere(t, sizes, lo) then 1 else 0) + CountedStarts(t, sizes, lo + ChunkAt(t, sizes, lo, hi - lo), hi)
  }

  /** The tally of boundaries counts bytes, and an instruction taken whole wholly as its start:
      four bytes that hold one instruction count as four starts. */
  lemma InteriorCountsAsStart()
    ensures var t, sizes := Table(None, {}, map[]), [4, 0, 0, 0];
            && Counted(t, sizes, OfBoundary(t, sizes, INSTRUCTION_START), 0, 4) == 4
            && BoundaryKindAt(t, sizes, 1) == INSTRUCTION_INTERIOR && CountedStarts(t, sizes, 0, 4) == 1
  {
    var t, sizes: seq<nat> := Table(None, {}, map[]), [4, 0, 0, 0];
    assert ChunkAt(t, sizes, 0, 4) == 4;
    assert Counted(t, sizes, OfBoundary(t, sizes, INSTRUCTION_START), 4, 4) == 0 && CountedStarts(t, sizes, 4, 4) == 0;
    assert Covers(sizes, 0, 1);
  }

  /** No other instruction starts inside a chunk. */
  ghost predicate StartsApart(t: Table, sizes: seq<nat>) {
    forall a, last, x :: IsChunk(t, sizes, a, last) && a < x <= last ==> !StartsHere(t, sizes, x)
  }

  /** The number of instruction starts is right over every range exactly when no decoded
      instruction starts inside one that is taken whole. */
  lemma StartsExactly(t: Table, sizes: seq<nat>)
    ensures (forall lo, hi :: CountedStarts(t, sizes, lo, hi) == Count(OfBoundary(t, sizes, INSTRUCTION_START), lo, hi))
            <==> StartsApart(t, sizes)
  {
    hide IsChunk, ChunkAt, StartsHere;
    var starts := OfBoundary(t, sizes, INSTRUCTION_START);
    if StartsApart(t, sizes) {
      forall lo, hi ensures CountedStarts(t, sizes, lo, hi) == Count(starts, lo, hi) {
        ApartCounts(t, sizes, lo, hi);
      }
    } else {
      var a, last, x :| IsChunk(t, sizes, a, last) && a < x <= last && StartsHere(t, sizes, x);
      HiddenStart(t, sizes, a, last, x);
    }
  }

  lemma {:induction false} ApartCounts(t: Table, sizes: seq<nat>, lo: int, hi: int)
    requires StartsApart(t, sizes)
    ensures CountedStarts(t, sizes, lo, hi) == Count(OfBoundary(t, sizes, INSTRUCTION_START), lo, hi)
    decreases hi - lo
  {
    hide ChunkAt, IsChunk, StartsHere;
    if lo < hi {
      var starts, run := OfBoundary(t, sizes, INSTRUCTION_START), ChunkAt(t, sizes, lo, hi - lo);
      ChunkIsChunk(t, sizes, lo, hi - lo);
      forall x | lo + 1 <= x < lo + run ensures !starts(x) { assert !StartsHere(t, sizes, x); }
      CountAlike(starts, false, lo + 1, run - 1);
      CountAlike(starts, starts(lo), lo, 1);
      CountsAdd(starts, lo, lo + 1, lo + run);
      ApartCounts(t, sizes, lo + run, hi);
      CountsAdd(starts, lo, lo + run, hi);
    }
  }

  lemma HiddenStart(t: Table, sizes: seq<nat>, a: int, last: int, x: int)
    requires IsChunk(t, sizes, a, last) && a < x <= last && StartsHere(t, sizes, x)
    ensures CountedStarts(t, sizes, a, last + 1) != Count(OfBoundary(t, sizes, INSTRUCTION_START), a, last + 1)
  {
    var starts := OfBoundary(t, sizes, INSTRUCTION_START);
    ChunkTakenWhole(t, sizes, a, last);
    assert StartsHere(t, sizes, a);
    hide ChunkAt, IsChunk, Count, StartsHere;
    assert CountedStarts(t, sizes, last + 1, last + 1) == 0;
    CountMixed(starts, a, a + 1, a);
    CountMixed(starts, a + 1, last + 1, x);
    CountsAdd(starts, a, a + 1, last + 1);
  }

  datatype OwnerCounts = OwnerCounts(start: nat, body: nat, gap: nat, after: nat, before: nat, unmapped: nat)

  function OwnerCount(c: OwnerCounts, k: OwnerKind): nat {
    match k
    case START => c.start
    case BODY => c.body
    case GAP => c.gap
    case AFTER => c.after
    case BEFORE => c.before
    case UNMAPPED => c.unmapped
  }

  function OwnerTotal(c: OwnerCounts): nat { c.start + c.body + c.gap + c.after + c.before + c.unmapped }

  function AddOwner(c: OwnerCounts, k: OwnerKind, n: nat): (r: OwnerCounts)
    ensures OwnerTotal(r) == OwnerTotal(c) + n
    ensures forall j :: OwnerCount(r, j) == OwnerCount(c, j) + if j == k then n else 0
  {
    match k
    case START => c.(start := c.start + n)
    case BODY => c.(body := c.body + n)
    case GAP => c.(gap := c.gap + n)
    case AFTER => c.(after := c.after + n)
    case BEFORE => c.(before := c.before + n)
    case UNMAPPED => c.(unmapped := c.unmapped + n)
  }

  datatype BoundaryCounts = BoundaryCounts(starts: nat, interiors: nat, never: nat)

  function BoundaryCount(c: BoundaryCounts, k: BoundaryKind): nat {
    match k
    case INSTRUCTION_START => c.starts
    case INSTRUCTION_INTERIOR => c.interiors
    case NEVER_DECODED => c.never
  }

  function BoundaryTotal(c: BoundaryCounts): nat { c.starts + c.interiors + c.never }

  function AddBoundary(c: BoundaryCounts, k: BoundaryKind, n: nat): (r: BoundaryCounts)
    ensures BoundaryTotal(r) == BoundaryTotal(c) + n
    ensures forall j :: BoundaryCount(r, j) == BoundaryCount(c, j) + if j == k then n else 0
  {
    match k
    case INSTRUCTION_START => c.(starts := c.starts + n)
    case INSTRUCTION_INTERIOR => c.(interiors := c.interiors + n)
    case NEVER_DECODED => c.(never := c.never + n)
  }

  datatype RegionOwnership = RegionOwnership(start: int, end: int, bytesByKind: OwnerCounts, boundaries: BoundaryCounts,
                                             instructionStarts: nat, scanned: nat, truncated: bool)

  /** Nothing outside every function; bytes in gaps are owned. */
  predicate IsFullyOwned(r: RegionOwnership) {
    !r.truncated && r.bytesByKind.after == 0 && r.bytesByKind.before == 0 && r.bytesByKind.unmapped == 0
  }

  /** With `rva` the walk's cursor, the tallies so far and what is still to come make up the whole. */
  ghost predicate Tallied(t: Table, sizes: seq<nat>, counts: OwnerCounts, boundaries: BoundaryCounts, starts: nat,
                          start: int, rva: int, to: int) {
    && (forall k :: Counted(t, sizes, OfKind(t, k), start, to)
                    == OwnerCount(counts, k) + Counted(t, sizes, OfKind(t, k), rva, to))
    && (forall k :: Counted(t, sizes, OfBoundary(t, sizes, k), start, to)
                    == BoundaryCount(boundaries, k) + Counted(t, sizes, OfBoundary(t, sizes, k), rva, to))
    && CountedStarts(t, sizes, start, to) == starts + CountedStarts(t, sizes, rva, to)
  }

  lemma NoChunks(t: Table, sizes: seq<nat>, start: int, to: int)
    ensures Tallied(t, sizes, OwnerCounts(0, 0, 0, 0, 0, 0), BoundaryCounts(0, 0, 0), 0, start, start, to)
  {
    hide Counted, CountedStarts;
  }

  lemma OneMoreChunk(t: Table, sizes: seq<nat>, counts: OwnerCounts, boundaries: BoundaryCounts, starts: nat,
                     start: int, rva: int, to: int)
    requires Tallied(t, sizes, counts, boundaries, starts, start, rva, to) && rva < to
    ensures var run := ChunkAt(t, sizes, rva, to - rva);
            Tallied(t, sizes, AddOwner(counts, KindAt(t, rva), run),
                    AddBoundary(boundaries, BoundaryKindAt(t, sizes, rva), run),
                    starts + if StartsHere(t, sizes, rva) then 1 else 0, start, rva + run, to)
  {
    hide ChunkAt, KindAt, BoundaryKindAt, StartsHere;
    var run := ChunkAt(t, sizes, rva, to - rva);
    var counts1 := AddOwner(counts, KindAt(t, rva), run);
    forall k ensures Counted(t, sizes, OfKind(t, k), start, to)
                     == OwnerCount(counts1, k) + Counted(t, sizes, OfKind(t, k), rva + run, to) {
      assert OfKind(t, k)(rva) == (KindAt(t, rva) == k);
    }
  }

  lemma AllChunks(t: Table, sizes: seq<nat>, counts: OwnerCounts, boundaries: BoundaryCounts, starts: nat,
                  start: int, to: int)
    requires Tallied(t, sizes, counts, boundaries, starts, start, to, to)
    ensures forall k :: OwnerCount(counts, k) == Counted(t, sizes, OfKind(t, k), start, to)
    ensures forall k :: BoundaryCount(boundaries, k) == Counted(t, sizes, OfBoundary(t, sizes, k), start, to)
    ensures starts == CountedStarts(t, sizes, start, to)
  {
  }

  /** Counts over a range, instruction by instruction. Every scanned byte is counted once. */
  method ClassifyRange(decoder: InstructionDecoder, functions: FunctionTable, start: int, end: int, limit: nat)
    returns (r: RegionOwnership)
    requires decoder.Valid() && functions.Coherent() && functions.image == Some(decoder.image)
    modifies functions`sorted, functions`extentsCache
    ensures functions.Coherent()
    ensures r.start == start && r.end == end && r.scanned == Min(Max(end - start, 0), limit)
    ensures OwnerTotal(r.bytesByKind) == r.scanned && BoundaryTotal(r.boundaries) == r.scanned
    ensures r.truncated <==> end - start > limit
    ensures var t, sizes := TableOf(functions), decoder.sizeAt[..];
            && (forall k :: OwnerCount(r.bytesByKind, k) == Counted(t, sizes, OfKind(t, k), start, start + r.scanned))
            && (forall k :: BoundaryCount(r.boundaries, k)
                            == Counted(t, sizes, OfBoundary(t, sizes, k), start, start + r.scanned))
            && r.instructionStarts == CountedStarts(t, sizes, start, start + r.scanned)
  {
    hide InstructionDecoder.Valid, FunctionTable.Coherent, Owns, IsBoundary, ChunkAt, KindAt, StartsHere;
    hide BoundaryKindAt, Tallied, Counted, CountedStarts;
    var counts, boundaries := OwnerCounts(0, 0, 0, 0, 0, 0), BoundaryCounts(0, 0, 0);
    var starts, scanned, rva := 0, 0, start;
    ghost var t, sizes, to := TableOf(functions), decoder.sizeAt[..], start + Min(Max(end - start, 0), limit);
    NoChunks(t, sizes, start, to);
    while rva < end && scanned < limit
      invariant functions.Coherent() && TableOf(functions) == t
      invariant rva == start + scanned && scanned <= limit && scanned <= Max(end - start, 0)
      invariant OwnerTotal(counts) == scanned && BoundaryTotal(boundaries) == scanned
      invariant Tallied(t, sizes, counts, boundaries, starts, start, rva, to)
      decreases limit - scanned
    {
      var kind, boundary, isStart, run := NextChunk(decoder, functions, rva, Min(end - rva, limit - scanned));
      OneMoreChunk(t, sizes, counts, boundaries, starts, start, rva, to);
      counts := AddOwner(counts, kind, run);
      boundaries := AddBoundary(boundaries, boundary, run);
      if isStart { starts := starts + 1; }
      scanned := scanned + run;
      rva := rva + run;
    }
    AllChunks(t, sizes, counts, boundaries, starts, start, to);
    r := RegionOwnership(start, end, counts, boundaries, starts, scanned, rva < end);
  }

  ghost function TableOf(functions: FunctionTable): Table
    reads functions
  {
    Table(functions.image, functions.starts, functions.claimed)
  }

  /** The bytes taken in one go: an instruction whose ends have one kind, or else one byte. */
  method NextChunk(decoder: InstructionDecoder, functions: FunctionTable, rva: int, most: int)
    returns (kind: OwnerKind, boundary: BoundaryKind, isStart: bool, run: nat)
    requires decoder.Valid() && functions.Coherent() && functions.image == Some(decoder.image) && most >= 1
    modifies functions`sorted, functions`extentsCache
    ensures functions.Coherent()
    ensures 1 <= run <= most && (isStart <==> boundary == INSTRUCTION_START)
    ensures boundary == BoundaryKindAt(TableOf(functions), decoder.sizeAt[..], rva)
    ensures isStart <==> StartsHere(TableOf(functions), decoder.sizeAt[..], rva)
    ensures kind == KindAt(TableOf(functions), rva) && run == ChunkAt(TableOf(functions), decoder.sizeAt[..], rva, most)
  {
    hide InstructionDecoder.Valid, FunctionTable.Coherent, Owns, KindAt;
    var owner;
    owner, kind := functions.OwnerOf(rva);
    OwnerKindIs(TableOf(functions), rva, owner, kind);
    var b := BoundaryOf(decoder, functions, rva);
    BoundaryKindIs(TableOf(functions), decoder.image, decoder.sizeAt[..], b);
    boundary, isStart := b.kind, b.kind == INSTRUCTION_START;
    run := if isStart then b.size else 1;
    run := Max(1, Min(run, most));
    if run > 1 {
      var owner2, kind2 := functions.OwnerOf(rva + run - 1);
      OwnerKindIs(TableOf(functions), rva + run - 1, owner2, kind2);
      if kind2 != kind { run := 1; }
    }
  }

  lemma {:induction false} CountedSomewhere(marked: Marking, lo: int, hi: int)
    ensures Count(marked, lo, hi) > 0 <==> exists x :: lo <= x < hi && marked(x)
    decreases hi - lo
  {
    if lo < hi { CountedSomewhere(marked, lo, hi - 1); }
  }

  /** Where the counts are exact, a range is fully owned exactly when it was scanned to its end
      and a function owns every byte of it. */
  lemma FullyOwnedExactly(t: Table, r: RegionOwnership)
    requires forall k :: OwnerCount(r.bytesByKind, k) == Count(OfKind(t, k), r.start, r.start + r.scanned)
    requires r.truncated <==> r.start + r.scanned < r.end
    requires r.scanned <= Max(r.end - r.start, 0)
    ensures IsFullyOwned(r) <==>
            !r.truncated && forall x :: r.start <= x < r.end ==> KindAt(t, x) in {START, BODY, GAP}
  {
    hide KindAt, Count;
    CountedSomewhere(OfKind(t, AFTER), r.start, r.start + r.scanned);
    CountedSomewhere(OfKind(t, BEFORE), r.start, r.start + r.scanned);
    CountedSomewhere(OfKind(t, UNMAPPED), r.start, r.start + r.scanned);
    assert OwnerCount(r.bytesByKind, AFTER) == r.bytesByKind.after;
    assert OwnerCount(r.bytesByKind, BEFORE) == r.bytesByKind.before;
    assert OwnerCount(r.bytesByKind, UNMAPPED) == r.bytesByKind.unmapped;
    forall x | r.start <= x < r.start + r.scanned
      ensures OfKind(t, AFTER)(x) || OfKind(t, BEFORE)(x) || OfKind(t, UNMAPPED)(x)
              || KindAt(t, x) in {START, BODY, GAP} {
    }
  }

  // ----- uncovered bytes -----

  datatype Run = Run(start: int, end: int)

  ghost predicate InRuns(runs: seq<Run>, b: int) { exists r :: r in runs && r.start <= b < r.end }

  /** The maximal stretches of [start, end) that no instruction claimed, ascending. */
  ghost predicate UncoveredRunsOf(covered: seq<bool>, start: int, end: int, runs: seq<Run>) {
    && (forall b :: start <= b < end ==> (InRuns(runs, b) <==> !IsClaimed(covered, b)))
    && (forall i :: 0 <= i < |runs| ==>
          && start <= runs[i].start < runs[i].end <= end
          && (runs[i].start == start || IsClaimed(covered, runs[i].start - 1))
          && (runs[i].end == end || IsClaimed(covered, runs[i].end)))
    && forall i :: 0 <= i < |runs| - 1 ==> runs[i].end < runs[i + 1].start
  }

  function TotalSize(runs: seq<Run>): int {
    if runs == [] then 0 else TotalSize(runs[..|runs| - 1]) + runs[|runs| - 1].end - runs[|runs| - 1].start
  }

  lemma CoveredStep(covered: seq<bool>, start: nat, c: int)
    requires start <= c
    ensures CoveredWithin(covered, start, c + 1)
              == CoveredWithin(covered, start, c) + if IsClaimed(covered, c) then 1 else 0
  {
    if c < |covered| {
      assert covered[start..c + 1] == covered[start..c] + [covered[c]];
      CountSplit(covered[start..c], [covered[c]]);
      assert [covered[c]][1..] == [];
    }
  }

  method UncoveredRuns(decoder: InstructionDecoder, start: nat, end: int) returns (runs: seq<Run>)
    ensures UncoveredRunsOf(decoder.covered[..], start, Max(start, end), runs)
    ensures TotalSize(runs) + CoveredWithin(decoder.covered[..], start, end) == Max(end - start, 0)
  {
    hide CoveredWithin, IsClaimed, UncoveredRunsOf, PartialRuns;
    runs := [];
    var cursor := start;
    NoRuns(decoder.covered[..], start, Max(start, end));
    while cursor < end
      invariant start <= cursor <= Max(start, end)
      invariant PartialRuns(decoder.covered[..], start, cursor, Max(start, end), runs)
      invariant TotalSize(runs) + CoveredWithin(decoder.covered[..], start, cursor) == cursor - start
      decreases end - cursor
    {
      var covered := decoder.IsCovered(cursor);
      if covered {
        CoveredStep(decoder.covered[..], start, cursor);
        SkipCovered(decoder.covered[..], start, cursor, end, runs);
        cursor := cursor + 1;
        continue;
      }
      var runStart := cursor;
      cursor := RunEnd(decoder, start, runStart, end);
      AddRun(decoder.covered[..], start, runStart, cursor, end, runs);
      assert (runs + [Run(runStart, cursor)])[..|runs|] == runs;
      runs := runs + [Run(runStart, cursor)];
    }
    RunsDone(decoder.covered[..], start, Max(start, end), runs);
    EmptyWithin(decoder.covered[..], start, end);
  }

  /** Where a stretch of uncovered bytes ends. */
  method RunEnd(decoder: InstructionDecoder, ghost start: nat, runStart: int, end: int) returns (cursor: int)
    requires start <= runStart < end && !IsClaimed(decoder.covered[..], runStart)
    ensures runStart < cursor <= end && forall b :: runStart <= b < cursor ==> !IsClaimed(decoder.covered[..], b)
    ensures cursor == end || IsClaimed(decoder.covered[..], cursor)
    ensures CoveredWithin(decoder.covered[..], start, cursor) == CoveredWithin(decoder.covered[..], start, runStart)
  {
    hide CoveredWithin, IsClaimed;
    cursor := runStart;
    while cursor < end
      invariant runStart <= cursor <= end
      invariant forall b :: runStart <= b < cursor ==> !IsClaimed(decoder.covered[..], b)
      invariant CoveredWithin(decoder.covered[..], start, cursor) == CoveredWithin(decoder.covered[..], start, runStart)
    {
      var covered := decoder.IsCovered(cursor);
      if covered { return; }
      CoveredStep(decoder.covered[..], start, cursor);
      cursor := cursor + 1;
    }
  }

  /** The same, up to a cursor. */
  ghost predicate PartialRuns(covered: seq<bool>, start: int, cursor: int, end: int, runs: seq<Run>) {
    && (forall b :: start <= b < cursor ==> (InRuns(runs, b) <==> !IsClaimed(covered, b)))
    && (forall i :: 0 <= i < |runs| ==>
          && start <= runs[i].start < runs[i].end <= cursor
          && (runs[i].start == start || IsClaimed(covered, runs[i].start - 1))
          && (runs[i].end == end || IsClaimed(covered, runs[i].end)))
    && (forall i :: 0 <= i < |runs| - 1 ==> runs[i].end < runs[i + 1].start)
  }

  lemma NoRuns(covered: seq<bool>, start: nat, end: int)
    ensures PartialRuns(covered, start, start, end, []) && CoveredWithin(covered, start, start) == 0
  {
  }

  lemma EmptyWithin(covered: seq<bool>, start: nat, end: int)
    ensures end <= start ==> CoveredWithin(covered, start, end) == 0
  {
  }

  lemma SkipCovered(covered: seq<bool>, start: nat, cursor: int, end: int, runs: seq<Run>)
    requires PartialRuns(covered, start, cursor, end, runs) && start <= cursor && IsClaimed(covered, cursor)
    ensures PartialRuns(covered, start, cursor + 1, end, runs)
  {
  }

  lemma InRunsOneMore(runs: seq<Run>, r: Run, b: int)
    ensures InRuns(runs + [r], b) <==> InRuns(runs, b) || r.start <= b < r.end
  {
    assert r in runs + [r];
    if InRuns(runs, b) {
      var q :| q in runs && q.start <= b < q.end;
      assert q in runs + [r];
    }
  }

  /** Before an unclaimed byte the runs have all ended earlier, at claimed ones. */
  lemma RunsEndBefore(covered: seq<bool>, start: nat, runStart: int, end: int, runs: seq<Run>)
    requires PartialRuns(covered, start, runStart, end, runs) && start <= runStart < end
    requires !IsClaimed(covered, runStart)
    ensures forall i :: 0 <= i < |runs| ==> runs[i].end < runStart
    ensures runStart == start || IsClaimed(covered, runStart - 1)
    ensures forall b :: b >= runStart ==> !InRuns(runs, b)
  {
    hide IsClaimed;
    if runStart > start && !IsClaimed(covered, runStart - 1) {
      assert InRuns(runs, runStart - 1);
    }
  }

  lemma AddRun(covered: seq<bool>, start: nat, runStart: int, cursor: int, end: int, runs: seq<Run>)
    requires PartialRuns(covered, start, runStart, end, runs) && start <= runStart < cursor <= end
    requires forall b :: runStart <= b < cursor ==> !IsClaimed(covered, b)
    requires cursor == end || IsClaimed(covered, cursor)
    ensures PartialRuns(covered, start, cursor, end, runs + [Run(runStart, cursor)])
  {
    RunsEndBefore(covered, start, runStart, end, runs);
    hide InRuns, IsClaimed;
    var more := runs + [Run(runStart, cursor)];
    forall b | start <= b < cursor ensures InRuns(more, b) <==> !IsClaimed(covered, b) {
      InRunsOneMore(runs, Run(runStart, cursor), b);
    }
  }

  lemma RunsDone(covered: seq<bool>, start: nat, end: int, runs: seq<Run>)
    requires PartialRuns(covered, start, end, end, runs)
    ensures UncoveredRunsOf(covered, start, end, runs)
  {
  }

  datatype Bucket = Padding | Data | Code | Unknown

  datatype Breakdown = Breakdown(padding: int, data: int, code: int, unknown: int)

  function Total(b: Breakdown): int { b.padding + b.data + b.code + b.unknown }

  function AddTo(b: Breakdown, k: Bucket, n: int): (r: Breakdown)
    ensures Total(r) == Total(b) + n
  {
    match k
    case Padding => b.(padding := b.padding + n)
    case Data => b.(data := b.data + n)
    case Code => b.(code := b.code + n)
    case Unknown => b.(unknown := b.unknown + n)
  }

  /** A run under the least length is unknown, another what classifies it says. */
  ghost predicate Labelled(classified: seq<(Run, Bucket)>, minRun: nat, classify: (int, int) -> Bucket) {
    forall c :: c in classified ==>
      c.1 == if c.0.end - c.0.start < minRun then Unknown else classify(c.0.start, c.0.end)
  }

  /** The bytes of the runs of one kind. */
  function BytesAs(classified: seq<(Run, Bucket)>, k: Bucket): int {
    if classified == [] then 0
    else
      var (r, kind) := classified[|classified| - 1];
      BytesAs(classified[..|classified| - 1], k) + if kind == k then r.end - r.start else 0
  }

  /** Each bucket holds the bytes of the runs of its kind. */
  predicate Sorted(b: Breakdown, classified: seq<(Run, Bucket)>) {
    && b.padding == BytesAs(classified, Padding) && b.data == BytesAs(classified, Data)
    && b.code == BytesAs(classified, Code) && b.unknown == BytesAs(classified, Unknown)
  }

  /** One section's uncovered bytes by cause: the covered bytes and the four buckets make up
      the section, whatever the classification of a run says. */
  method AttributeSection(decoder: InstructionDecoder, section: Section, minRun: nat, classify: (int, int) -> Bucket)
    returns (b: Breakdown, classified: seq<(Run, Bucket)>)
    ensures CoveredWithin(decoder.covered[..], section.va, section.va + section.virtualSize) + Total(b)
              == section.virtualSize
    ensures UncoveredRunsOf(decoder.covered[..], section.va, section.va + section.virtualSize, RunsIn(classified))
    ensures Labelled(classified, minRun, classify) && Sorted(b, classified)
  {
    hide CoveredWithin, UncoveredRunsOf, TotalSize, RunsIn, Labelled, Total, Sorted, AddTo;
    var runs := UncoveredRuns(decoder, section.va, section.va + section.virtualSize);
    b := Breakdown(0, 0, 0, 0);
    classified := [];
    NoneClassified(runs, minRun, classify);
    for k := 0 to |runs|
      invariant RunsIn(classified) == runs[..k] && Total(b) == TotalSize(runs[..k])
      invariant Labelled(classified, minRun, classify) && Sorted(b, classified)
    {
      var r := runs[k];
      var kind := if r.end - r.start < minRun then Unknown else classify(r.start, r.end);
      OneMoreClassified(runs, classified, k, kind, minRun, classify);
      OneMoreSorted(b, classified, r, kind);
      classified := classified + [(r, kind)];
      b := AddTo(b, kind, r.end - r.start);
    }
    assert runs[..|runs|] == runs;
  }

  lemma NoneClassified(runs: seq<Run>, minRun: nat, classify: (int, int) -> Bucket)
    ensures RunsIn([]) == runs[..0] && Total(Breakdown(0, 0, 0, 0)) == TotalSize(runs[..0])
    ensures Labelled([], minRun, classify) && Sorted(Breakdown(0, 0, 0, 0), [])
  {
  }

  lemma OneMoreSorted(b: Breakdown, classified: seq<(Run, Bucket)>, r: Run, kind: Bucket)
    requires Sorted(b, classified)
    ensures Sorted(AddTo(b, kind, r.end - r.start), classified + [(r, kind)])
  {
    assert (classified + [(r, kind)])[..|classified|] == classified;
  }

  lemma OneMoreClassified(runs: seq<Run>, classified: seq<(Run, Bucket)>, k: nat, kind: Bucket,
                          minRun: nat, classify: (int, int) -> Bucket)
    requires k < |runs| && RunsIn(classified) == runs[..k] && Labelled(classified, minRun, classify)
    requires kind == if runs[k].end - runs[k].start < minRun then Unknown else classify(runs[k].start, runs[k].end)
    ensures Labelled(classified + [(runs[k], kind)], minRun, classify)
    ensures RunsIn(classified + [(runs[k], kind)]) == runs[..k + 1]
    ensures TotalSize(runs[..k + 1]) == TotalSize(runs[..k]) + runs[k].end - runs[k].start
  {
    assert runs[..k + 1][..k] == runs[..k];
  }

  function RunsIn(classified: seq<(Run, Bucket)>): (r: seq<Run>)
    ensures |r| == |classified| && forall i :: 0 <= i < |r| ==> r[i] == classified[i].0
  {
    seq(|classified|, i requires 0 <= i < |classified| => classified[i].0)
  }
}
