/** Reading a range of another process, keeping what is readable and naming what is not. */
module TolerantRead {
  import opened Wrappers
  import opened Image

  const PAGE_SIZE: nat := 0x1000

  datatype Region = Region(base: int, size: int, committed: bool)

  /** The system's side, fixed while a read goes on: the region found from an address, or an
      error; how many bytes a read of a range transfers before it fails, and with what error;
      and the bytes themselves. */
  datatype Target = Target(query: int -> QueryResult, transfer: (int, nat) -> (nat, nat), byte: int -> int)

  datatype QueryResult = Found(region: Region) | Refused(error: nat)

  datatype Gap = Gap(addr: int, size: int, error: nat)

  datatype MemoryRead = MemoryRead(address: int, size: int, data: seq<int>, gaps: seq<Gap>)

  datatype Result<+T> = Done(value: T) | TooLarge

  /** A read transfers no more than it is asked for. */
  ghost predicate TransfersOk(t: Target) { forall a: int, n: nat :: t.transfer(a, n).0 <= n }

  /** A region found from an address ends beyond it. */
  ghost predicate RegionsContain(t: Target) {
    forall a :: t.query(a).Found? && t.query(a).region.size > 0 ==> t.query(a).region.base + t.query(a).region.size > a
  }

  predicate InGap(g: Gap, b: int) { g.addr <= b < g.addr + g.size }

  ghost predicate InGaps(gaps: seq<Gap>, b: int) { exists i :: 0 <= i < |gaps| && InGap(gaps[i], b) }

  /** Ascending, disjoint, not empty, inside [lo, hi). */
  ghost predicate GapsOk(gaps: seq<Gap>, lo: int, hi: int) {
    && (forall i :: 0 <= i < |gaps| ==> lo <= gaps[i].addr && gaps[i].size > 0 && gaps[i].addr + gaps[i].size <= hi)
    && forall i, j :: 0 <= i < j < |gaps| ==> gaps[i].addr + gaps[i].size <= gaps[j].addr
  }

  function TotalGap(gaps: seq<Gap>): int {
    if gaps == [] then 0 else TotalGap(gaps[..|gaps| - 1]) + gaps[|gaps| - 1].size
  }

  predicate Complete(r: MemoryRead) { r.gaps == [] }

  function ReadableBytes(r: MemoryRead): int { r.size - TotalGap(r.gaps) }

  /** Up to a cursor every byte is in a gap and zero, or was transferred and is the target's;
      behind it nothing has happened yet. `got` holds the addresses transferred. */
  ghost predicate ReadTo(t: Target, addr: int, buf: seq<int>, gaps: seq<Gap>, got: set<int>, cursor: int) {
    && addr <= cursor <= addr + |buf| && GapsOk(gaps, addr, cursor)
    && (forall b :: b in got <==> addr <= b < cursor && !InGaps(gaps, b))
    && (forall k :: 0 <= k < |buf| ==> buf[k] == if addr + k in got then t.byte(addr + k) else 0)
    && |got| + TotalGap(gaps) == cursor - addr
  }

  /** What a finished read says. */
  ghost predicate Tiles(t: Target, r: MemoryRead, got: set<int>) {
    && |r.data| == r.size && GapsOk(r.gaps, r.address, r.address + r.size)
    && (forall b :: b in got <==> r.address <= b < r.address + r.size && !InGaps(r.gaps, b))
    && (forall k :: 0 <= k < |r.data| ==> r.data[k] == if r.address + k in got then t.byte(r.address + k) else 0)
    && (Complete(r) <==> forall b :: r.address <= b < r.address + r.size ==> b in got)
    && ReadableBytes(r) == |got|
  }

  // ----- which bytes are kept -----

  /** A gap carries the reason of the call that made it: the query's error, none for memory
      that is not committed or not described, or the error of a transfer that stopped there. */
  ghost predicate Explained(t: Target, g: Gap) {
    || t.query(g.addr) == Refused(g.error)
    || (t.query(g.addr).Found? && g.error == 0
        && (t.query(g.addr).region.size <= 0 || !t.query(g.addr).region.committed))
    || exists a: int, n: nat :: a <= g.addr < a + n && t.transfer(a, n) == (g.addr - a, g.error)
  }

  ghost predicate AllExplained(t: Target, gaps: seq<Gap>) { forall g :: g in gaps ==> Explained(t, g) }

  lemma StoppedThere(t: Target, gaps: seq<Gap>, g: Gap, a: int, n: nat)
    requires AllExplained(t, gaps) && a <= g.addr < a + n && t.transfer(a, n) == (g.addr - a, g.error)
    ensures AllExplained(t, gaps + [g])
  {
  }

  type Readable = int -> bool

  ghost predicate NoneReadable(readable: Readable, lo: int, hi: int) {
    forall b :: lo <= b < hi ==> !readable(b)
  }

  /** Of [a, a + n), the first k bytes are readable and the next one, if any, is not. */
  ghost predicate IsPrefix(readable: Readable, a: int, n: nat, k: nat) {
    && k <= n && (forall b :: a <= b < a + k ==> readable(b)) && (k < n ==> !readable(a + k))
  }

  /** Where the piece of a read that is asked for next ends: with its region, or with the read. */
  function PieceEnd(t: Target, a: int, end: int): int {
    match t.query(a)
    case Refused(_) => end
    case Found(region) => if region.size <= 0 then end else Min(region.base + region.size, end)
  }

  ghost predicate PageWise(readable: Readable) {
    forall a, b :: a / PAGE_SIZE == b / PAGE_SIZE ==> readable(a) == readable(b)
  }

  /** A readable byte behind one that is not starts a page, and so does one that is not behind
      one that is. */
  lemma ChangeStartsPage(readable: Readable, a: int)
    requires PageWise(readable) && readable(a - 1) != readable(a)
    ensures a % PAGE_SIZE == 0
  {
    assert (a - 1) / PAGE_SIZE != a / PAGE_SIZE;
  }

  /** The system's answers fit one page-wise set of readable bytes: a transfer stops at the
      first byte that is not readable, regions end on pages, and what is not described or not
      committed is not readable. */
  ghost predicate Honest(t: Target, readable: Readable) {
    && (forall a: int, n: nat :: IsPrefix(readable, a, n, t.transfer(a, n).0))
    && PageWise(readable)
    && (forall a :: match t.query(a)
          case Refused(_) => forall b :: a <= b ==> !readable(b)
          case Found(region) =>
            if region.size <= 0 then forall b :: a <= b ==> !readable(b)
            else (region.base + region.size) % PAGE_SIZE == 0
                 && (!region.committed ==> NoneReadable(readable, a, region.base + region.size)))
  }

  ghost predicate Before(got: set<int>, cursor: int) { forall b :: b in got ==> b < cursor }

  ghost predicate SameBefore(got: set<int>, got': set<int>, cursor: int) {
    forall b :: b < cursor ==> (b in got' <==> b in got)
  }

  /** The next n bytes from a cursor are kept as well. */
  ghost predicate Adds(got: set<int>, got': set<int>, cursor: int, n: nat) {
    forall b :: b in got' <==> b in got || cursor <= b < cursor + n
  }

  /** Exactly the readable bytes of [lo, hi) were kept. */
  ghost predicate Exact(readable: Readable, got: set<int>, lo: int, hi: int) {
    forall b :: lo <= b < hi ==> (b in got <==> readable(b))
  }

  /** The pages of a piece line up with the target's, or they do not matter. */
  ghost predicate LinesUp(readable: Readable, start: int, stop: int) {
    start % PAGE_SIZE == 0 || readable(start) || NoneReadable(readable, start, stop)
  }

  lemma FirstReadable(readable: Readable, lo: int, hi: int) returns (r: int)
    requires !NoneReadable(readable, lo, hi)
    ensures lo <= r < hi && readable(r) && NoneReadable(readable, lo, r)
  {
    r := lo;
    while !readable(r)
      invariant lo <= r < hi && NoneReadable(readable, lo, r)
      decreases hi - r
    {
      r := r + 1;
    }
  }

  /** Where a span is at a cursor: in step with the pages and exact, or out of step, in which
      case the first readable byte, once passed, was not kept. */
  ghost predicate SpanAt(readable: Readable, got: set<int>, start: int, stop: int, cursor: int) {
    if start % PAGE_SIZE == 0 || readable(start) then
      Exact(readable, got, start, cursor) && (cursor == stop || cursor % PAGE_SIZE == 0)
    else
      && (cursor == stop || cursor % PAGE_SIZE == start % PAGE_SIZE)
      && (forall b :: start <= b < cursor && b in got ==> readable(b))
      && forall r :: start <= r < cursor && readable(r) && NoneReadable(readable, start, r) ==> r !in got
  }

  lemma SpanStarts(readable: Readable, got: set<int>, start: int, stop: int, n: nat)
    requires PageWise(readable) && start < stop && IsPrefix(readable, start, stop - start, n)
    requires forall b :: start <= b < stop ==> (b in got <==> b < start + n)
    ensures SpanAt(readable, got, start, stop, start + n)
  {
    if 0 < n < stop - start { ChangeStartsPage(readable, start + n); }
  }

  /** A chunk of one page is transferred whole or not at all. */
  lemma ChunkWhole(readable: Readable, cursor: int, chunk: nat, n: nat)
    requires PageWise(readable) && cursor % PAGE_SIZE == 0 && chunk <= PAGE_SIZE
    requires IsPrefix(readable, cursor, chunk, n)
    ensures forall b :: cursor <= b < cursor + chunk ==> (b < cursor + n <==> readable(b))
  {
    forall b | cursor <= b < cursor + chunk ensures b < cursor + n <==> readable(b) {
      assert b / PAGE_SIZE == cursor / PAGE_SIZE && readable(b) == readable(cursor);
      if n < chunk { assert (cursor + n) / PAGE_SIZE == cursor / PAGE_SIZE; }
    }
  }

  /** Out of step, the chunk that passes the first readable byte starts before it. */
  lemma FirstPassed(readable: Readable, start: int, cursor: int, chunk: nat, n: nat, r: int)
    requires PageWise(readable) && start % PAGE_SIZE != 0 && !readable(start)
    requires cursor % PAGE_SIZE == start % PAGE_SIZE && start <= cursor
    requires readable(r) && NoneReadable(readable, start, r) && cursor <= r && IsPrefix(readable, cursor, chunk, n)
    ensures n == 0
  {
    assert start < r && !readable(r - 1);
    ChangeStartsPage(readable, r);
    assert cursor != r;
    assert n > 0 ==> readable(cursor);
  }

  lemma SpanSteps(readable: Readable, got: set<int>, got': set<int>, start: int, stop: int,
                  cursor: int, chunk: nat, n: nat)
    requires PageWise(readable) && start <= cursor < stop && chunk == Min(PAGE_SIZE, stop - cursor)
    requires SpanAt(readable, got, start, stop, cursor) && IsPrefix(readable, cursor, chunk, n)
    requires Before(got, cursor) && Adds(got, got', cursor, n)
    ensures SpanAt(readable, got', start, stop, cursor + chunk)
  {
    hide PageWise;
    if start % PAGE_SIZE == 0 || readable(start) {
      ChunkWhole(readable, cursor, chunk, n);
    } else {
      forall r | start <= r < cursor + chunk && readable(r) && NoneReadable(readable, start, r) ensures r !in got' {
        if cursor <= r { FirstPassed(readable, start, cursor, chunk, n, r); }
      }
    }
  }

  lemma SpanEnds(readable: Readable, got: set<int>, start: int, stop: int)
    requires start < stop && SpanAt(readable, got, start, stop, stop)
    ensures Exact(readable, got, start, stop) <==> LinesUp(readable, start, stop)
  {
    if !LinesUp(readable, start, stop) {
      var r := FirstReadable(readable, start, stop);
      assert r !in got;
    }
  }

  lemma Started(t: Target, readable: Readable, got: set<int>, got': set<int>, start: int, stop: int, n: nat)
    requires start < stop && n == t.transfer(start, stop - start).0
    requires Before(got, start) && Adds(got, got', start, n)
    ensures SameBefore(got, got', start)
    ensures Honest(t, readable) ==> SpanAt(readable, got', start, stop, start + n)
  {
    hide SpanAt;
    if Honest(t, readable) { SpanStarts(readable, got', start, stop, n); }
  }

  lemma Stepped(t: Target, readable: Readable, first: set<int>, got: set<int>, got': set<int>, start: int, stop: int,
                cursor: int, chunk: nat, n: nat)
    requires start <= cursor < stop && chunk == Min(PAGE_SIZE, stop - cursor) && n == t.transfer(cursor, chunk).0
    requires Honest(t, readable) ==> SpanAt(readable, got, start, stop, cursor)
    requires SameBefore(first, got, start) && Before(got, cursor) && Adds(got, got', cursor, n)
    ensures SameBefore(first, got', start)
    ensures Honest(t, readable) ==> SpanAt(readable, got', start, stop, cursor + chunk)
  {
    hide SpanAt;
    if Honest(t, readable) { SpanSteps(readable, got, got', start, stop, cursor, chunk, n); }
  }

  lemma Ended(t: Target, readable: Readable, got: set<int>, start: int, stop: int)
    requires start < stop && (Honest(t, readable) ==> SpanAt(readable, got, start, stop, stop))
    ensures Honest(t, readable) ==> (Exact(readable, got, start, stop) <==> LinesUp(readable, start, stop))
  {
    if Honest(t, readable) { SpanEnds(readable, got, start, stop); }
  }

  /** Where a whole read is at a cursor: from the second piece on everything lines up, so it
      is the first piece that decides. */
  ghost predicate ReadAt(t: Target, readable: Readable, addr: int, end: int, cursor: int, got: set<int>) {
    || (cursor == addr && got == {})
    || ((cursor == end || cursor % PAGE_SIZE == 0)
        && (Exact(readable, got, addr, cursor) <==> LinesUp(readable, addr, PieceEnd(t, addr, end))))
  }

  lemma PieceRead(t: Target, readable: Readable, addr: int, end: int, cursor: int, got: set<int>, got': set<int>)
    requires Honest(t, readable) && addr <= cursor < end && ReadAt(t, readable, addr, end, cursor, got)
    requires cursor < PieceEnd(t, cursor, end)
    requires SameBefore(got, got', cursor)
    requires Exact(readable, got', cursor, PieceEnd(t, cursor, end))
             <==> LinesUp(readable, cursor, PieceEnd(t, cursor, end))
    ensures ReadAt(t, readable, addr, end, PieceEnd(t, cursor, end), got')
  {
    var stop := PieceEnd(t, cursor, end);
    assert stop == end || stop % PAGE_SIZE == 0;
    if cursor != addr || got != {} {
      assert Exact(readable, got', cursor, stop);
      assert Exact(readable, got', addr, stop) <==> Exact(readable, got, addr, cursor);
    }
  }

  /** Nothing is kept of a piece that is passed over, and nothing of it could be. */
  lemma PiecePassed(t: Target, readable: Readable, addr: int, end: int, cursor: int, got: set<int>)
    requires Honest(t, readable) && addr <= cursor < end && ReadAt(t, readable, addr, end, cursor, got)
    requires cursor < PieceEnd(t, cursor, end) && Before(got, cursor)
    requires t.query(cursor).Found? && t.query(cursor).region.size > 0 ==> !t.query(cursor).region.committed
    ensures ReadAt(t, readable, addr, end, PieceEnd(t, cursor, end), got)
  {
    assert NoneReadable(readable, cursor, PieceEnd(t, cursor, end));
    PieceRead(t, readable, addr, end, cursor, got, got);
  }

  /** A target whose second page alone is readable, described as one committed region. A read
      from 0x10 does not line up: it asks for [0x10, 0x1010) at once and loses the readable
      bytes from 0x1000. */
  lemma ReadableBytesLost()
    ensures var t := Target(a => if a < 0 then Found(Region(a, -a, false))
                                 else if a < 0x2000 then Found(Region(0, 0x2000, true)) else Refused(87),
                            (a: int, n: nat) =>
                              (if 0x1000 <= a < 0x2000 then Min(n, 0x2000 - a) else 0, 299),
                            _ => 7);
            var readable: Readable := b => 0x1000 <= b < 0x2000;
            && TransfersOk(t) && RegionsContain(t) && Honest(t, readable)
            && !LinesUp(readable, 0x10, PieceEnd(t, 0x10, 0x2000))
  {
    var readable: Readable := b => 0x1000 <= b < 0x2000;
    assert readable(0x1000);
  }

  // ----- the two loops -----

  function Range(lo: int, n: nat): (r: set<int>)
    ensures |r| == n && forall b :: b in r <==> lo <= b < lo + n
  {
    if n == 0 then {} else Range(lo, n - 1) + {lo + n - 1}
  }

  lemma Transferred(t: Target, addr: int, buf: seq<int>, buf': seq<int>, gaps: seq<Gap>, got: set<int>,
                    cursor: int, n: nat)
    requires ReadTo(t, addr, buf, gaps, got, cursor) && cursor + n <= addr + |buf| && |buf'| == |buf|
    requires forall k :: 0 <= k < |buf| ==>
               buf'[k] == if cursor <= addr + k < cursor + n then t.byte(addr + k) else buf[k]
    ensures ReadTo(t, addr, buf', gaps, got + Range(cursor, n), cursor + n)
  {
  }

  lemma InGapsOneMore(gaps: seq<Gap>, g: Gap, b: int)
    ensures InGaps(gaps + [g], b) <==> InGaps(gaps, b) || InGap(g, b)
  {
    hide InGap;
    var more := gaps + [g];
    if i :| 0 <= i < |gaps| && InGap(gaps[i], b) { assert InGap(more[i], b); }
    assert more[|gaps|] == g;
  }

  lemma NotInGaps(gaps: seq<Gap>, lo: int, hi: int, b: int)
    requires GapsOk(gaps, lo, hi) && b >= hi
    ensures !InGaps(gaps, b)
  {
  }

  lemma GapsOneMore(gaps: seq<Gap>, lo: int, g: Gap)
    requires GapsOk(gaps, lo, g.addr) && g.size > 0 && lo <= g.addr
    ensures GapsOk(gaps + [g], lo, g.addr + g.size) && TotalGap(gaps + [g]) == TotalGap(gaps) + g.size
  {
    assert (gaps + [g])[..|gaps|] == gaps;
  }

  lemma Skipped(t: Target, addr: int, buf: seq<int>, gaps: seq<Gap>, got: set<int>, cursor: int, g: Gap)
    requires ReadTo(t, addr, buf, gaps, got, cursor)
    requires g.addr == cursor && g.size > 0 && cursor + g.size <= addr + |buf|
    ensures ReadTo(t, addr, buf, gaps + [g], got, cursor + g.size)
  {
    hide InGaps, GapsOk, TotalGap;
    GapsOneMore(gaps, addr, g);
    forall b ensures b in got <==> addr <= b < cursor + g.size && !InGaps(gaps + [g], b) {
      InGapsOneMore(gaps, g, b);
      if b >= cursor { NotInGaps(gaps, addr, cursor, b); }
    }
  }

  /** A piece that is passed over, with the reason. */
  lemma PassedOver(t: Target, readable: Readable, addr: int, end: int, buf: seq<int>, gaps: seq<Gap>, got: set<int>,
                   cursor: int, g: Gap)
    requires addr <= cursor < end == addr + |buf| && ReadTo(t, addr, buf, gaps, got, cursor) && AllExplained(t, gaps)
    requires Honest(t, readable) ==> ReadAt(t, readable, addr, end, cursor, got)
    requires g.addr == cursor < cursor + g.size == PieceEnd(t, cursor, end)
    requires match t.query(cursor)
             case Refused(error) => g.error == error
             case Found(region) => g.error == 0 && (region.size > 0 ==> !region.committed)
    ensures ReadTo(t, addr, buf, gaps + [g], got, cursor + g.size) && AllExplained(t, gaps + [g])
    ensures Honest(t, readable) ==> ReadAt(t, readable, addr, end, cursor + g.size, got)
  {
    StartsInside(t, addr, buf, gaps, got, cursor);
    Skipped(t, addr, buf, gaps, got, cursor, g);
    hide ReadTo, ReadAt, Before, Honest;
    if Honest(t, readable) { PiecePassed(t, readable, addr, end, cursor, got); }
  }

  /** A piece that is read. */
  lemma ReadOn(t: Target, readable: Readable, addr: int, end: int, cursor: int, got: set<int>, got': set<int>)
    requires addr <= cursor < end && cursor < PieceEnd(t, cursor, end) && SameBefore(got, got', cursor)
    requires Honest(t, readable) ==> ReadAt(t, readable, addr, end, cursor, got)
    requires var stop := PieceEnd(t, cursor, end);
             Honest(t, readable) ==> (Exact(readable, got', cursor, stop) <==> LinesUp(readable, cursor, stop))
    ensures Honest(t, readable) ==> ReadAt(t, readable, addr, end, PieceEnd(t, cursor, end), got')
  {
    hide ReadAt, SameBefore, Exact, LinesUp, Honest, PieceEnd;
    if Honest(t, readable) { PieceRead(t, readable, addr, end, cursor, got, got'); }
  }

  lemma ReadStarts(t: Target, readable: Readable, addr: int, end: int)
    ensures ReadAt(t, readable, addr, end, addr, {}) && AllExplained(t, [])
  {
  }

  lemma ReadEnds(t: Target, readable: Readable, addr: int, end: int, got: set<int>)
    requires addr < end && (Honest(t, readable) ==> ReadAt(t, readable, addr, end, end, got))
    ensures Honest(t, readable) ==>
              (Exact(readable, got, addr, end) <==> LinesUp(readable, addr, PieceEnd(t, addr, end)))
  {
    hide Honest, Exact, LinesUp;
  }

  lemma Finished(t: Target, addr: int, buf: seq<int>, gaps: seq<Gap>, got: set<int>)
    requires ReadTo(t, addr, buf, gaps, got, addr + |buf|)
    ensures Tiles(t, MemoryRead(addr, |buf|, buf, gaps), got)
  {
    if gaps != [] {
      assert InGap(gaps[0], gaps[0].addr);
      assert InGaps(gaps, gaps[0].addr);
    }
  }

  class MemoryManager {
    const target: Target

    constructor (target: Target)
      ensures this.target == target
    {
      this.target := target;
    }

    /** Read [addr, addr + size) as far as the target lets it. Refuses only a size over the
        limit. It keeps every byte the target would give up exactly when its first piece lines
        up with the pages. */
    method ReadSafe(addr: int, size: int, maxBytes: Option<nat>, ghost readable: Readable)
      returns (r: Result<MemoryRead>, ghost got: set<int>)
      requires TransfersOk(target) && RegionsContain(target)
      ensures r.TooLarge? <==> size > 0 && maxBytes.Some? && size > maxBytes.value
      ensures r.Done? && size <= 0 ==> r.value == MemoryRead(addr, size, [], [])
      ensures r.Done? && size > 0 ==> r.value.address == addr && r.value.size == size && Tiles(target, r.value, got)
      ensures r.Done? && size > 0 ==> AllExplained(target, r.value.gaps)
      ensures r.Done? && size > 0 && Honest(target, readable) ==>
                (Exact(readable, got, addr, addr + size)
                 <==> LinesUp(readable, addr, PieceEnd(target, addr, addr + size)))
    {
      hide ReadTo, TransfersOk, AllExplained, Tiles, ReadAt, Honest, Exact, LinesUp, SameBefore;
      got := {};
      if size <= 0 { return Done(MemoryRead(addr, size, [], [])), {}; }
      if maxBytes.Some? && size > maxBytes.value { return TooLarge, {}; }
      var end := addr + size;
      var buf := new int[size](_ => 0);
      var gaps: seq<Gap> := [];
      var cursor := addr;
      NothingRead(target, addr, buf[..]);
      ReadStarts(target, readable, addr, end);
      while cursor < end
        invariant fresh(buf) && buf.Length == size && addr <= cursor <= end
        invariant ReadTo(target, addr, buf[..], gaps, got, cursor) && AllExplained(target, gaps)
        invariant Honest(target, readable) ==> ReadAt(target, readable, addr, end, cursor, got)
        decreases end - cursor
      {
        match target.query(cursor) {
          case Refused(error) =>
            var g := Gap(cursor, end - cursor, error);
            PassedOver(target, readable, addr, end, buf[..], gaps, got, cursor, g);
            gaps := gaps + [g];
            cursor := end;
            break;
          case Found(region) =>
            if region.size <= 0 {
              var g := Gap(cursor, end - cursor, 0);
              PassedOver(target, readable, addr, end, buf[..], gaps, got, cursor, g);
              gaps := gaps + [g];
              cursor := end;
              break;
            }
            var regionEnd := region.base + region.size;
            var stop := Min(regionEnd, end);
            if !region.committed {
              var g := Gap(cursor, stop - cursor, 0);
              PassedOver(target, readable, addr, end, buf[..], gaps, got, cursor, g);
              gaps := gaps + [g];
            } else {
              ghost var was := got;
              gaps, got := ReadSpan(cursor, stop, buf, addr, gaps, got, readable);
              ReadOn(target, readable, addr, end, cursor, was, got);
            }
            if regionEnd <= cursor { break; }
            cursor := Min(regionEnd, end);
        }
      }
      Finished(target, addr, buf[..], gaps, got);
      ReadEnds(target, readable, addr, end, got);
      r := Done(MemoryRead(addr, size, buf[..], gaps));
    }

    /** Fill the part of the buffer for [start, stop), going to pages where the whole span
        does not transfer. */
    method ReadSpan(start: int, stop: int, buf: array<int>, origin: int, gaps: seq<Gap>, ghost got: set<int>,
                    ghost readable: Readable)
      returns (gaps': seq<Gap>, ghost got': set<int>)
      requires TransfersOk(target) && start < stop <= origin + buf.Length
      requires ReadTo(target, origin, buf[..], gaps, got, start) && AllExplained(target, gaps)
      modifies buf
      ensures ReadTo(target, origin, buf[..], gaps', got', stop) && AllExplained(target, gaps')
      ensures SameBefore(got, got', start)
      ensures Honest(target, readable) ==>
                (Exact(readable, got', start, stop) <==> LinesUp(readable, start, stop))
    {
      hide ReadTo, GapsOk, IsPrefix, Exact, LinesUp, SpanAt, PageWise, AllExplained, Honest, Before, SameBefore, Adds;
      StartsInside(target, origin, buf[..], gaps, got, start);
      gaps' := gaps;
      var (nread, err) := target.transfer(start, stop - start);
      assert nread <= stop - start;
      got' := CopyBytes(start, nread, buf, origin, gaps', got);
      Started(target, readable, got, got', start, stop, nread);
      if err == 0 && nread == stop - start {
        Ended(target, readable, got', start, stop);
        return;
      }
      var cursor := start + nread;
      while cursor < stop
        invariant start <= cursor <= stop
        invariant ReadTo(target, origin, buf[..], gaps', got', cursor) && AllExplained(target, gaps')
        invariant SameBefore(got, got', start)
        invariant Honest(target, readable) ==> SpanAt(readable, got', start, stop, cursor)
      {
        StartsInside(target, origin, buf[..], gaps', got', cursor);
        ghost var was := got';
        var chunk: nat := Min(PAGE_SIZE, stop - cursor);
        var (n, error) := target.transfer(cursor, chunk);
        assert n <= chunk;
        got' := CopyBytes(cursor, n, buf, origin, gaps', got');
        if n < chunk {
          var g := Gap(cursor + n, chunk - n, error);
          Skipped(target, origin, buf[..], gaps', got', cursor + n, g);
          StoppedThere(target, gaps', g, cursor, chunk);
          gaps' := gaps' + [g];
        }
        Stepped(target, readable, got, was, got', start, stop, cursor, chunk, n);
        cursor := cursor + chunk;
      }
      Ended(target, readable, got', start, stop);
    }

    /** Put what was transferred in its place. */
    method CopyBytes(start: int, nread: nat, buf: array<int>, origin: int, ghost gaps: seq<Gap>, ghost got: set<int>)
      returns (ghost got': set<int>)
      requires ReadTo(target, origin, buf[..], gaps, got, start) && start + nread <= origin + buf.Length
      modifies buf
      ensures ReadTo(target, origin, buf[..], gaps, got', start + nread)
      ensures Adds(got, got', start, nread)
    {
      StartsInside(target, origin, buf[..], gaps, got, start);
      hide ReadTo;
      ghost var was := buf[..];
      for i := 0 to nread
        invariant forall k :: 0 <= k < buf.Length ==>
                    buf[k] == if start <= origin + k < start + i then target.byte(origin + k) else was[k]
      {
        buf[start - origin + i] := target.byte(start + i);
      }
      Transferred(target, origin, was, buf[..], gaps, got, start, nread);
      got' := got + Range(start, nread);
    }
  }

  lemma NothingRead(t: Target, addr: int, buf: seq<int>)
    requires forall i :: 0 <= i < |buf| ==> buf[i] == 0
    ensures ReadTo(t, addr, buf, [], {}, addr)
  {
  }

  lemma StartsInside(t: Target, addr: int, buf: seq<int>, gaps: seq<Gap>, got: set<int>, cursor: int)
    requires ReadTo(t, addr, buf, gaps, got, cursor)
    ensures addr <= cursor <= addr + |buf| && Before(got, cursor)
  {
  }

  ghost predicate InOneGap(gaps: seq<Gap>, b: int) {
    exists i :: 0 <= i < |gaps| && InGap(gaps[i], b) && forall j :: 0 <= j < |gaps| && j != i ==> !InGap(gaps[j], b)
  }

  /** What a finished read means for one byte: in exactly one gap and zero, or the target's. */
  lemma EachByteOnce(t: Target, r: MemoryRead, got: set<int>, b: int)
    requires Tiles(t, r, got) && r.address <= b < r.address + r.size
    ensures b in got ==> r.data[b - r.address] == t.byte(b) && forall i :: 0 <= i < |r.gaps| ==> !InGap(r.gaps[i], b)
    ensures b !in got ==> r.data[b - r.address] == 0 && InOneGap(r.gaps, b)
  {
    assert b - r.address < |r.data| && r.address + (b - r.address) == b;
    if b !in got {
      var i :| 0 <= i < |r.gaps| && InGap(r.gaps[i], b);
      forall j | 0 <= j < |r.gaps| && j != i ensures !InGap(r.gaps[j], b) { }
    } else {
      assert !InGaps(r.gaps, b);
    }
  }
}
