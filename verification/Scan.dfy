/** A linear decode of a byte range that accounts for what it skipped. */
module Scan {
  import opened Wrappers
  import opened Image
  import opened Decoder

  datatype Piece = Piece(rva: int, size: nat)

  datatype Undecodable = Undecodable(rva: int, size: nat, reason: Failure)

  datatype Resync = Resync(stop: int, resume: int, skipped: nat)

  datatype LinearScan = LinearScan(start: int, end: int, decoded: seq<Piece>, coveredBytes: int,
                                   undecodable: seq<Undecodable>, resyncs: seq<Resync>, truncated: bool)

  function GapEnd(u: Undecodable): int { u.rva + u.size }

  // ----- what a scan is to produce -----

  /** Instructions and gaps, taken together in address order, cover [start, cursor) without
      overlap and without a hole. */
  ghost predicate Tiled(decoded: seq<Piece>, gaps: seq<Undecodable>, start: int, cursor: int)
    decreases |decoded| + |gaps|
  {
    || (decoded == [] && gaps == [] && cursor == start)
    || (decoded != [] && EndsWithPiece(decoded, cursor)
        && Tiled(decoded[..|decoded| - 1], gaps, start, decoded[|decoded| - 1].rva))
    || (gaps != [] && EndsWithGap(gaps, cursor)
        && Tiled(decoded, gaps[..|gaps| - 1], start, gaps[|gaps| - 1].rva))
  }

  predicate EndsWithPiece(decoded: seq<Piece>, cursor: int)
    requires decoded != []
  {
    decoded[|decoded| - 1].size > 0 && decoded[|decoded| - 1].rva + decoded[|decoded| - 1].size == cursor
  }

  predicate EndsWithGap(gaps: seq<Undecodable>, cursor: int)
    requires gaps != []
  {
    gaps[|gaps| - 1].size > 0 && GapEnd(gaps[|gaps| - 1]) == cursor
  }

  function BytesDecoded(decoded: seq<Piece>): int {
    if decoded == [] then 0 else BytesDecoded(decoded[..|decoded| - 1]) + decoded[|decoded| - 1].size
  }

  function BytesSkipped(gaps: seq<Undecodable>): int {
    if gaps == [] then 0 else BytesSkipped(gaps[..|gaps| - 1]) + gaps[|gaps| - 1].size
  }

  predicate InPiece(p: Piece, b: int) { p.rva <= b < p.rva + p.size }

  predicate InGap(u: Undecodable, b: int) { u.rva <= b < GapEnd(u) }

  /** The instructions are what decodes there; the gaps are maximal stretches of bytes at which
      nothing decodes, each with the reason of its first byte. */
  ghost predicate Faithful(image: Image, decoded: seq<Piece>, gaps: seq<Undecodable>, start: int, end: int) {
    && (forall i :: 0 <= i < |decoded| ==>
          InsnAt(image, decoded[i].rva).Some? && InsnAt(image, decoded[i].rva).value.size == decoded[i].size)
    && (forall i :: 0 <= i < |gaps| ==>
          && (forall b :: InGap(gaps[i], b) ==> InsnAt(image, b).None?)
          && FailureOf(image, gaps[i].rva) == Some(gaps[i].reason)
          && (GapEnd(gaps[i]) == end || InsnAt(image, GapEnd(gaps[i])).Some?))
    && forall i :: 0 <= i < |gaps| - 1 ==> GapEnd(gaps[i]) < gaps[i + 1].rva
  }

  /** One resync behind every gap that does not reach the end. */
  function ResyncsFor(gaps: seq<Undecodable>, end: int): seq<Resync> {
    if gaps == [] then []
    else
      var u := gaps[|gaps| - 1];
      ResyncsFor(gaps[..|gaps| - 1], end) + if GapEnd(u) < end then [Resync(u.rva, GapEnd(u), u.size)] else []
  }

  /** Why a scan stops before the end: its limit, or an instruction that runs past the end. */
  ghost predicate StopsFor(image: Image, scan: LinearScan, cursor: int, limit: Option<nat>) {
    && cursor <= scan.end && (limit.Some? ==> |scan.decoded| <= limit.value)
    && (scan.truncated <==> cursor < scan.end && limit.Some? && |scan.decoded| >= limit.value)
    && (cursor < scan.end && !scan.truncated ==>
          InsnAt(image, cursor).Some? && cursor + InsnAt(image, cursor).value.size > scan.end)
  }

  /** A scan that reached `cursor`. */
  ghost predicate IsScan(image: Image, scan: LinearScan, cursor: int, limit: Option<nat>) {
    && scan.start <= scan.end
    && Tiled(scan.decoded, scan.undecodable, scan.start, cursor)
    && Faithful(image, scan.decoded, scan.undecodable, scan.start, scan.end)
    && scan.coveredBytes == BytesDecoded(scan.decoded)
    && scan.resyncs == ResyncsFor(scan.undecodable, scan.end)
    && StopsFor(image, scan, cursor, limit)
  }

  // ----- consequences -----

  lemma {:induction false} TilesCount(decoded: seq<Piece>, gaps: seq<Undecodable>, start: int, cursor: int)
    requires Tiled(decoded, gaps, start, cursor)
    ensures BytesDecoded(decoded) + BytesSkipped(gaps) == cursor - start
    ensures start <= cursor && (cursor == start ==> decoded == [] && gaps == [])
    ensures BytesSkipped(gaps) >= 0 && (gaps != [] ==> BytesSkipped(gaps) > 0)
    decreases |decoded| + |gaps|
  {
    if decoded != [] && EndsWithPiece(decoded, cursor)
       && Tiled(decoded[..|decoded| - 1], gaps, start, decoded[|decoded| - 1].rva) {
      TilesCount(decoded[..|decoded| - 1], gaps, start, decoded[|decoded| - 1].rva);
    } else if gaps != [] {
      TilesCount(decoded, gaps[..|gaps| - 1], start, gaps[|gaps| - 1].rva);
    }
  }

  /** Every byte up to the cursor is in exactly one instruction or exactly one gap. */
  lemma {:induction false} TilesPartition(decoded: seq<Piece>, gaps: seq<Undecodable>, start: int, cursor: int, b: int)
    requires Tiled(decoded, gaps, start, cursor)
    ensures start <= b < cursor <==> (exists i :: 0 <= i < |decoded| && InPiece(decoded[i], b))
                                     || exists j :: 0 <= j < |gaps| && InGap(gaps[j], b)
    ensures forall i, j :: 0 <= i < |decoded| && 0 <= j < |gaps| ==> !(InPiece(decoded[i], b) && InGap(gaps[j], b))
    ensures forall i, j :: 0 <= i < j < |decoded| ==> !(InPiece(decoded[i], b) && InPiece(decoded[j], b))
    ensures forall i, j :: 0 <= i < j < |gaps| ==> !(InGap(gaps[i], b) && InGap(gaps[j], b))
    decreases |decoded| + |gaps|
  {
    TilesCount(decoded, gaps, start, cursor);
    if decoded != [] && EndsWithPiece(decoded, cursor)
       && Tiled(decoded[..|decoded| - 1], gaps, start, decoded[|decoded| - 1].rva) {
      var init, last := decoded[..|decoded| - 1], decoded[|decoded| - 1];
      TilesPartition(init, gaps, start, last.rva, b);
      TilesCount(init, gaps, start, last.rva);
      forall i | 0 <= i < |init| ensures decoded[i] == init[i] { }
    } else if gaps != [] {
      var init, last := gaps[..|gaps| - 1], gaps[|gaps| - 1];
      TilesPartition(decoded, init, start, last.rva, b);
      TilesCount(decoded, init, start, last.rva);
      forall i | 0 <= i < |init| ensures gaps[i] == init[i] { }
    }
  }

  function ScannedBytes(scan: LinearScan): int { scan.end - scan.start }

  predicate IsComplete(scan: LinearScan) {
    scan.undecodable == [] && scan.resyncs == [] && !scan.truncated && scan.coveredBytes == ScannedBytes(scan)
  }

  function UnaccountedBytes(scan: LinearScan): int {
    ScannedBytes(scan) - scan.coveredBytes - BytesSkipped(scan.undecodable)
  }

  /** What is unaccounted for is the tail behind the cursor, so it is zero exactly when the
      scan was neither cut by its limit nor stopped by an instruction that crosses the end. */
  lemma UnaccountedIsTail(image: Image, scan: LinearScan, cursor: int, limit: Option<nat>)
    requires IsScan(image, scan, cursor, limit)
    ensures UnaccountedBytes(scan) == scan.end - cursor
    ensures UnaccountedBytes(scan) != 0 <==>
            scan.truncated
            || (InsnAt(image, cursor).Some? && cursor < scan.end < cursor + InsnAt(image, cursor).value.size)
  {
    TilesCount(scan.decoded, scan.undecodable, scan.start, cursor);
  }

  /** A scan is complete exactly when its instructions alone tile the range. */
  lemma CompleteExactly(image: Image, scan: LinearScan, cursor: int, limit: Option<nat>)
    requires IsScan(image, scan, cursor, limit)
    ensures IsComplete(scan) <==> Tiled(scan.decoded, [], scan.start, scan.end)
  {
    TilesCount(scan.decoded, scan.undecodable, scan.start, cursor);
    if Tiled(scan.decoded, [], scan.start, scan.end) {
      TilesCount(scan.decoded, [], scan.start, scan.end);
    }
  }

  // ----- the scan -----

  /** Up to the cursor, with no gap left open behind it. */
  ghost predicate Partial(image: Image, decoded: seq<Piece>, covered: int, gaps: seq<Undecodable>, resyncs: seq<Resync>,
                          start: int, end: int, cursor: int) {
    && start <= cursor <= end && Tiled(decoded, gaps, start, cursor) && Faithful(image, decoded, gaps, start, end)
    && covered == BytesDecoded(decoded) && resyncs == ResyncsFor(gaps, end)
    && (forall i :: 0 <= i < |gaps| ==> GapEnd(gaps[i]) <= cursor)
  }

  lemma PartialPiece(image: Image, decoded: seq<Piece>, covered: int, gaps: seq<Undecodable>, resyncs: seq<Resync>,
                     start: int, end: int, cursor: int, insn: Insn)
    requires Partial(image, decoded, covered, gaps, resyncs, start, end, cursor)
    requires InsnAt(image, cursor) == Some(insn) && insn.size > 0 && cursor + insn.size <= end
    ensures Partial(image, decoded + [Piece(cursor, insn.size)], covered + insn.size, gaps, resyncs,
                    start, end, cursor + insn.size)
  {
    hide Tiled, Faithful, BytesDecoded, ResyncsFor, InsnAt;
    PieceTiles(decoded, gaps, start, cursor, insn.size);
    PieceIsFaithful(image, decoded, gaps, start, end, cursor, insn);
  }

  lemma PieceTiles(decoded: seq<Piece>, gaps: seq<Undecodable>, start: int, cursor: int, size: nat)
    requires Tiled(decoded, gaps, start, cursor) && size > 0
    ensures Tiled(decoded + [Piece(cursor, size)], gaps, start, cursor + size)
    ensures BytesDecoded(decoded + [Piece(cursor, size)]) == BytesDecoded(decoded) + size
  {
    assert (decoded + [Piece(cursor, size)])[..|decoded|] == decoded;
  }

  lemma PieceIsFaithful(image: Image, decoded: seq<Piece>, gaps: seq<Undecodable>, start: int, end: int,
                        cursor: int, insn: Insn)
    requires Faithful(image, decoded, gaps, start, end) && start <= cursor && cursor + insn.size <= end
    requires InsnAt(image, cursor) == Some(insn) && insn.size > 0
    ensures Faithful(image, decoded + [Piece(cursor, insn.size)], gaps, start, end)
  {
    hide InsnAt;
  }

  lemma PartialGap(image: Image, decoded: seq<Piece>, covered: int, gaps: seq<Undecodable>, resyncs: seq<Resync>,
                   start: int, end: int, cursor: int, gap: Undecodable)
    requires Partial(image, decoded, covered, gaps, resyncs, start, end, cursor)
    requires gap.rva == cursor && gap.size > 0 && GapEnd(gap) <= end
    requires forall b :: InGap(gap, b) ==> InsnAt(image, b).None?
    requires FailureOf(image, cursor) == Some(gap.reason)
    requires GapEnd(gap) == end || InsnAt(image, GapEnd(gap)).Some?
    ensures Partial(image, decoded, covered, gaps + [gap],
                    if GapEnd(gap) < end then resyncs + [Resync(gap.rva, GapEnd(gap), gap.size)] else resyncs,
                    start, end, GapEnd(gap))
  {
    hide Tiled, Faithful, BytesDecoded, ResyncsFor, InsnAt, FailureOf, InGap, GapEnd;
    GapsEndBefore(gaps, cursor, gap);
    GapTiles(decoded, gaps, start, cursor, gap);
    GapIsFaithful(image, decoded, gaps, start, end, cursor, gap);
    ResyncsOneMore(gaps, end, gap);
  }

  lemma GapsEndBefore(gaps: seq<Undecodable>, cursor: int, gap: Undecodable)
    requires gap.rva == cursor && gap.size > 0 && forall i :: 0 <= i < |gaps| ==> GapEnd(gaps[i]) <= cursor
    ensures cursor < GapEnd(gap)
    ensures forall i :: 0 <= i < |gaps + [gap]| ==> GapEnd((gaps + [gap])[i]) <= GapEnd(gap)
  {
  }

  lemma GapTiles(decoded: seq<Piece>, gaps: seq<Undecodable>, start: int, cursor: int, gap: Undecodable)
    requires Tiled(decoded, gaps, start, cursor) && gap.rva == cursor && gap.size > 0
    ensures Tiled(decoded, gaps + [gap], start, GapEnd(gap))
  {
    assert (gaps + [gap])[..|gaps|] == gaps;
  }

  lemma GapIsFaithful(image: Image, decoded: seq<Piece>, gaps: seq<Undecodable>, start: int, end: int, cursor: int,
                      gap: Undecodable)
    requires Faithful(image, decoded, gaps, start, end) && start <= cursor
    requires forall i :: 0 <= i < |gaps| ==> GapEnd(gaps[i]) <= cursor
    requires gap.rva == cursor && gap.size > 0 && GapEnd(gap) <= end
    requires forall b :: InGap(gap, b) ==> InsnAt(image, b).None?
    requires FailureOf(image, cursor) == Some(gap.reason)
    requires GapEnd(gap) == end || InsnAt(image, GapEnd(gap)).Some?
    ensures Faithful(image, decoded, gaps + [gap], start, end)
  {
    hide InsnAt, FailureOf;
    assert InGap(gap, cursor);
  }

  lemma ResyncsOneMore(gaps: seq<Undecodable>, end: int, gap: Undecodable)
    ensures ResyncsFor(gaps + [gap], end)
            == ResyncsFor(gaps, end) + if GapEnd(gap) < end then [Resync(gap.rva, GapEnd(gap), gap.size)] else []
  {
    assert (gaps + [gap])[..|gaps|] == gaps;
  }

  // ----- what a scan does to the decoder -----

  function ClaimsFor(decoded: seq<Piece>): seq<Claim> {
    seq(|decoded|, i requires 0 <= i < |decoded| => Claim(decoded[i].rva, decoded[i].size))
  }

  function OriginsWith(origins: map<int, Origin>, decoded: seq<Piece>, origin: Origin): map<int, Origin> {
    if decoded == [] then origins
    else OriginsWith(origins, decoded[..|decoded| - 1], origin)[decoded[|decoded| - 1].rva := origin]
  }

  ghost predicate InSome(decoded: seq<Piece>, b: int) { exists i :: 0 <= i < |decoded| && InPiece(decoded[i], b) }

  /** The bytes of some instructions are claimed for an origin, once for each instruction and in order,
      and no other byte is. */
  ghost predicate Marks(covered: seq<bool>, covered': seq<bool>, claims: seq<Claim>, claims': seq<Claim>,
                        origins: map<int, Origin>, origins': map<int, Origin>, marked: seq<Piece>, origin: Origin) {
    && |covered'| == |covered|
    && (forall b :: 0 <= b < |covered| ==> (covered'[b] <==> covered[b] || InSome(marked, b)))
    && claims' == claims + ClaimsFor(marked) && origins' == OriginsWith(origins, marked, origin)
  }

  lemma MarksNothing(covered: seq<bool>, claims: seq<Claim>, origins: map<int, Origin>, origin: Origin)
    ensures Marks(covered, covered, claims, claims, origins, origins, [], origin)
  {
  }

  lemma MarksOneMore(covered: seq<bool>, now: seq<bool>, covered': seq<bool>, claims: seq<Claim>, now1: seq<Claim>,
                     origins: map<int, Origin>, now2: map<int, Origin>, marked: seq<Piece>, origin: Origin, p: Piece)
    requires Marks(covered, now, claims, now1, origins, now2, marked, origin) && |covered'| == |covered|
    requires forall b :: 0 <= b < |covered| ==> (covered'[b] <==> now[b] || InPiece(p, b))
    ensures Marks(covered, covered', claims, now1 + [Claim(p.rva, p.size)], origins, now2[p.rva := origin],
                  marked + [p], origin)
  {
    hide InPiece;
    assert (marked + [p])[..|marked|] == marked;
    assert ClaimsFor(marked + [p]) == ClaimsFor(marked) + [Claim(p.rva, p.size)];
    forall b ensures InSome(marked + [p], b) <==> InSome(marked, b) || InPiece(p, b) {
      if i :| 0 <= i < |marked| && InPiece(marked[i], b) { assert InPiece((marked + [p])[i], b); }
      if InPiece(p, b) { assert InPiece((marked + [p])[|marked|], b); }
    }
  }

  predicate AllRecorded(sizes: seq<nat>, decoded: seq<Piece>) {
    forall p :: p in decoded && p.rva + p.size <= |sizes| ==> Recorded(sizes, p.rva)
  }

  ghost predicate Keeps(sizes: seq<nat>, sizes': seq<nat>) {
    |sizes'| == |sizes| && forall x :: Recorded(sizes, x) ==> Recorded(sizes', x)
  }

  lemma DecodeKeeps(image: Image, sizes: seq<nat>, rva: int)
    requires DisassemblerOk(image) && |sizes| == Span(image)
    ensures Keeps(sizes, SizesAfter(image, sizes, rva))
    ensures InsnAt(image, rva).Some? ==>
              AllRecorded(SizesAfter(image, sizes, rva), [Piece(rva, InsnAt(image, rva).value.size)])
  {
    if InsnAt(image, rva).Some? { MappedIsInSpan(image, rva); }
  }

  lemma KeepsAll(sizes: seq<nat>, sizes': seq<nat>, decoded: seq<Piece>)
    requires Keeps(sizes, sizes') && AllRecorded(sizes, decoded)
    ensures AllRecorded(sizes', decoded)
  {
  }

  lemma RecordedOneMore(sizes: seq<nat>, decoded: seq<Piece>, p: Piece)
    requires AllRecorded(sizes, decoded) && AllRecorded(sizes, [p])
    ensures AllRecorded(sizes, decoded + [p])
  {
    forall q | q in decoded + [p] ensures q in decoded || q in [p] { }
  }

  lemma DecoderIsOk(decoder: InstructionDecoder)
    requires decoder.Valid()
    ensures DisassemblerOk(decoder.image) && decoder.sizeAt.Length == Span(decoder.image) == decoder.covered.Length
  {
  }

  /** Decode [start, end) one instruction after the other, resynchronising over gaps. */
  method Scan(decoder: InstructionDecoder, start: int, end: int, origin: Origin, markCovered: bool, limit: Option<nat>)
    returns (scan: LinearScan, ghost cursor: int)
    requires decoder.Valid()
    modifies decoder, decoder.sizeAt, decoder.covered
    ensures decoder.Valid() && scan.start == start && scan.end == end
    ensures end > start ==> IsScan(decoder.image, scan, cursor, limit)
    ensures end <= start ==> scan == LinearScan(start, end, [], 0, [], [], false)
    ensures Marks(old(decoder.covered[..]), decoder.covered[..], old(decoder.claims), decoder.claims,
                  old(decoder.originAt), decoder.originAt, if markCovered then scan.decoded else [], origin)
    ensures AllRecorded(decoder.sizeAt[..], scan.decoded)
  {
    hide InstructionDecoder.Valid, InstructionDecoder.FailureReason, FailureOf, InsnAt, SizesAfter, DisassemblerOk,
         Partial, Marks, Keeps, Recorded, InPiece;
    ghost var was, claims, origins := decoder.covered[..], decoder.claims, decoder.originAt;
    MarksNothing(was, claims, origins, origin);
    DecoderIsOk(decoder);
    if end <= start {
      scan := LinearScan(start, end, [], 0, [], [], false);
      cursor := start;
      return;
    }
    var decoded: seq<Piece> := [];
    var undecodable: seq<Undecodable> := [];
    var resyncs: seq<Resync> := [];
    var covered, truncated, rva := 0, false, start;
    NothingScanned(decoder.image, start, end);
    while rva < end
      invariant decoder.Valid() && !truncated
      invariant Partial(decoder.image, decoded, covered, undecodable, resyncs, start, end, rva)
      invariant Marks(old(decoder.covered[..]), decoder.covered[..], old(decoder.claims), decoder.claims,
                      old(decoder.originAt), decoder.originAt, if markCovered then decoded else [], origin)
      invariant AllRecorded(decoder.sizeAt[..], decoded)
      invariant limit.Some? ==> |decoded| <= limit.value
      decreases end - rva
    {
      if limit.Some? && |decoded| >= limit.value {
        truncated := true;
        break;
      }
      ghost var sizes := decoder.sizeAt[..];
      DecodeKeeps(decoder.image, sizes, rva);
      var insn := decoder.DecodeOne(rva);
      KeepsAll(sizes, decoder.sizeAt[..], decoded);
      if insn.None? {
        sizes := decoder.sizeAt[..];
        var gap := SkipGap(decoder, rva, end);
        KeepsAll(sizes, decoder.sizeAt[..], decoded);
        PartialGap(decoder.image, decoded, covered, undecodable, resyncs, start, end, rva, gap);
        undecodable := undecodable + [gap];
        if GapEnd(gap) < end { resyncs := resyncs + [Resync(rva, GapEnd(gap), gap.size)]; }
        rva := GapEnd(gap);
        continue;
      }
      if rva + insn.value.size > end { break; }
      SizesArePositive(decoder, rva);
      PartialPiece(decoder.image, decoded, covered, undecodable, resyncs, start, end, rva, insn.value);
      RecordedOneMore(decoder.sizeAt[..], decoded, Piece(rva, insn.value.size));
      ghost var pieces := decoded;
      decoded := decoded + [Piece(rva, insn.value.size)];
      covered := covered + insn.value.size;
      if markCovered { Mark(decoder, rva, insn.value.size, origin, was, claims, origins, pieces); }
      rva := rva + insn.value.size;
    }
    scan := LinearScan(start, end, decoded, covered, undecodable, resyncs, truncated);
    cursor := rva;
    PartialMeans(decoder.image, decoded, covered, undecodable, resyncs, start, end, rva);
  }

  /** Claim one more instruction for a scan. */
  method Mark(decoder: InstructionDecoder, rva: int, size: nat, origin: Origin, ghost before: seq<bool>,
              ghost claims: seq<Claim>, ghost origins: map<int, Origin>, ghost marked: seq<Piece>)
    requires decoder.Valid() && 0 <= rva < decoder.covered.Length && size > 0
    requires Marks(before, decoder.covered[..], claims, decoder.claims, origins, decoder.originAt, marked, origin)
    modifies decoder`originAt, decoder`overlapBytes, decoder`overlapConflicts, decoder`overlapByOrigin, decoder`claims
    modifies decoder.covered
    ensures decoder.Valid()
    ensures Marks(before, decoder.covered[..], claims, decoder.claims, origins, decoder.originAt,
                  marked + [Piece(rva, size)], origin)
  {
    hide InstructionDecoder.Valid, Marks;
    ghost var now, now1, now2 := decoder.covered[..], decoder.claims, decoder.originAt;
    decoder.MarkCovered(rva, size, origin);
    assert |before| == |now| by { MarksLength(before, now, claims, now1, origins, now2, marked, origin); }
    MarksOneMore(before, now, decoder.covered[..], claims, now1, origins, now2, marked, origin, Piece(rva, size));
  }

  lemma MarksLength(covered: seq<bool>, covered': seq<bool>, claims: seq<Claim>, claims': seq<Claim>,
                    origins: map<int, Origin>, origins': map<int, Origin>, marked: seq<Piece>, origin: Origin)
    requires Marks(covered, covered', claims, claims', origins, origins', marked, origin)
    ensures |covered'| == |covered|
  {
  }

  lemma NothingScanned(image: Image, start: int, end: int)
    requires start <= end
    ensures Partial(image, [], 0, [], [], start, end, start)
  {
  }

  lemma PartialMeans(image: Image, decoded: seq<Piece>, covered: int, gaps: seq<Undecodable>, resyncs: seq<Resync>,
                     start: int, end: int, cursor: int)
    requires Partial(image, decoded, covered, gaps, resyncs, start, end, cursor)
    ensures start <= cursor <= end && Tiled(decoded, gaps, start, cursor) && Faithful(image, decoded, gaps, start, end)
    ensures covered == BytesDecoded(decoded) && resyncs == ResyncsFor(gaps, end)
  {
  }

  lemma SizesArePositive(decoder: InstructionDecoder, rva: int)
    requires decoder.Valid() && InsnAt(decoder.image, rva).Some?
    ensures InsnAt(decoder.image, rva).value.size > 0 && 0 <= rva < decoder.covered.Length
  {
    MappedIsInSpan(decoder.image, rva);
  }

  /** The whole run of bytes at which nothing decodes. */
  method SkipGap(decoder: InstructionDecoder, stop: int, end: int) returns (gap: Undecodable)
    requires decoder.Valid() && stop < end && InsnAt(decoder.image, stop).None?
    requires decoder.FailureReason(stop) == FailureOf(decoder.image, stop)
    modifies decoder`bad, decoder`cache, decoder`instructions, decoder`uses, decoder.sizeAt
    ensures decoder.Valid() && Keeps(old(decoder.sizeAt[..]), decoder.sizeAt[..])
    ensures gap.rva == stop && gap.size > 0 && GapEnd(gap) <= end
    ensures FailureOf(decoder.image, stop) == Some(gap.reason)
    ensures forall b :: InGap(gap, b) ==> InsnAt(decoder.image, b).None?
    ensures GapEnd(gap) == end || InsnAt(decoder.image, GapEnd(gap)).Some?
  {
    NotDecodedHasReason(decoder.image, stop);
    DecoderIsOk(decoder);
    hide InstructionDecoder.Valid, InsnAt, FailureOf, SizesAfter, Recorded, DisassemblerOk, AllRecorded;
    var reason := decoder.FailureReason(stop).value;
    var rva := stop;
    while rva < end
      invariant decoder.Valid() && stop <= rva <= end && Keeps(old(decoder.sizeAt[..]), decoder.sizeAt[..])
      invariant forall b :: stop <= b < rva ==> InsnAt(decoder.image, b).None?
      decreases end - rva
    {
      DecodeKeeps(decoder.image, decoder.sizeAt[..], rva);
      var insn := decoder.DecodeOne(rva);
      if insn.Some? {
        assert rva > stop;
        return Undecodable(stop, rva - stop, reason);
      }
      rva := rva + 1;
    }
    gap := Undecodable(stop, rva - stop, reason);
  }

  lemma NotDecodedHasReason(image: Image, rva: int)
    requires InsnAt(image, rva).None?
    ensures FailureOf(image, rva).Some?
  {
  }

  // ----- stretches that rest on a resync -----

  datatype Stretch = Stretch(start: int, end: int, count: int)

  /** Where the stretch behind the i-th resync ends. */
  function StretchEnd(scan: LinearScan, i: nat): int
    requires i < |scan.resyncs|
  {
    if i + 1 < |scan.resyncs| then scan.resyncs[i + 1].stop else scan.end
  }

  function CountFrom(decoded: seq<Piece>, lo: int, hi: int): nat {
    if decoded == [] then 0
    else CountFrom(decoded[..|decoded| - 1], lo, hi) + if lo <= decoded[|decoded| - 1].rva < hi then 1 else 0
  }

  /** How many instructions start below an address; they are in address order. */
  method BisectLeft(decoded: seq<Piece>, rva: int) returns (index: nat)
    requires forall i, j :: 0 <= i < j < |decoded| ==> decoded[i].rva < decoded[j].rva
    ensures index <= |decoded|
    ensures forall i :: 0 <= i < index ==> decoded[i].rva < rva
    ensures forall i :: index <= i < |decoded| ==> decoded[i].rva >= rva
  {
    var lo, hi := 0, |decoded|;
    while lo < hi
      invariant 0 <= lo <= hi <= |decoded|
      invariant forall i :: 0 <= i < lo ==> decoded[i].rva < rva
      invariant forall i :: hi <= i < |decoded| ==> decoded[i].rva >= rva
    {
      var mid := (lo + hi) / 2;
      if decoded[mid].rva < rva { lo := mid + 1; } else { hi := mid; }
    }
    index := lo;
  }

  lemma {:induction false} CountBetween(decoded: seq<Piece>, lo: int, hi: int, first: nat, last: nat)
    requires first <= |decoded| && last <= |decoded| && lo <= hi
    requires forall i :: 0 <= i < first ==> decoded[i].rva < lo
    requires forall i :: first <= i < |decoded| ==> decoded[i].rva >= lo
    requires forall i :: 0 <= i < last ==> decoded[i].rva < hi
    requires forall i :: last <= i < |decoded| ==> decoded[i].rva >= hi
    ensures first <= last && CountFrom(decoded, lo, hi) == last - first
    decreases |decoded|
  {
    assert last < |decoded| ==> decoded[last].rva >= hi;
    if decoded != [] {
      var n := |decoded| - 1;
      assert decoded[n].rva < lo <==> first == |decoded|;
      assert decoded[n].rva < hi <==> last == |decoded|;
      CountBetween(decoded[..n], lo, hi, Min(first, n), Min(last, n));
    }
  }

  lemma {:induction false} TilesAscend(decoded: seq<Piece>, gaps: seq<Undecodable>, start: int, cursor: int)
    requires Tiled(decoded, gaps, start, cursor)
    ensures forall i, j :: 0 <= i < j < |decoded| ==> decoded[i].rva < decoded[j].rva
    ensures forall i :: 0 <= i < |decoded| ==> start <= decoded[i].rva < cursor
    ensures forall i, j :: 0 <= i < j < |gaps| ==> GapEnd(gaps[i]) <= gaps[j].rva
    ensures forall i :: 0 <= i < |gaps| ==> start <= gaps[i].rva < GapEnd(gaps[i]) <= cursor
    decreases |decoded| + |gaps|
  {
    TilesCount(decoded, gaps, start, cursor);
    if decoded != [] && EndsWithPiece(decoded, cursor)
       && Tiled(decoded[..|decoded| - 1], gaps, start, decoded[|decoded| - 1].rva) {
      var init := decoded[..|decoded| - 1];
      TilesAscend(init, gaps, start, decoded[|decoded| - 1].rva);
      forall i | 0 <= i < |init| ensures decoded[i] == init[i] { }
      TilesCount(init, gaps, start, decoded[|decoded| - 1].rva);
    } else if gaps != [] {
      var init := gaps[..|gaps| - 1];
      TilesAscend(decoded, init, start, gaps[|gaps| - 1].rva);
      forall i | 0 <= i < |init| ensures gaps[i] == init[i] { }
      TilesCount(decoded, init, start, gaps[|gaps| - 1].rva);
    }
  }

  /** Resyncs come in order, each behind the gap it skips. */
  lemma {:induction false} ResyncsAscend(gaps: seq<Undecodable>, end: int)
    requires forall i, j :: 0 <= i < j < |gaps| ==> GapEnd(gaps[i]) <= gaps[j].rva
    requires forall i :: 0 <= i < |gaps| ==> gaps[i].rva < GapEnd(gaps[i])
    ensures forall i :: 0 <= i < |ResyncsFor(gaps, end)| ==>
              && ResyncsFor(gaps, end)[i].stop < ResyncsFor(gaps, end)[i].resume < end
              && Undecoded(gaps, ResyncsFor(gaps, end)[i])
    ensures forall i, j :: 0 <= i < j < |ResyncsFor(gaps, end)| ==>
              ResyncsFor(gaps, end)[i].resume <= ResyncsFor(gaps, end)[j].stop
    decreases |gaps|
  {
    if gaps != [] {
      var init := gaps[..|gaps| - 1];
      ResyncsAscend(init, end);
      var rs := ResyncsFor(init, end);
      forall i | 0 <= i < |rs| ensures Undecoded(gaps, rs[i]) {
        assert Undecoded(init, rs[i]);
        var k :| 0 <= k < |init| && Resync(init[k].rva, GapEnd(init[k]), init[k].size) == rs[i];
        assert gaps[k] == init[k];
      }
      assert gaps[|gaps| - 1] == gaps[|init|];
    }
  }

  ghost predicate Undecoded(gaps: seq<Undecodable>, r: Resync) {
    exists k :: 0 <= k < |gaps| && Resync(gaps[k].rva, GapEnd(gaps[k]), gaps[k].size) == r
  }

  /** The i-th stretch, if anything was decoded in it. */
  function StretchAt(scan: LinearScan, i: nat): seq<Stretch>
    requires i < |scan.resyncs|
  {
    var r, e := scan.resyncs[i], StretchEnd(scan, i);
    var count := CountFrom(scan.decoded, r.resume, e);
    if count > 0 then [Stretch(r.resume, e, count)] else []
  }

  function Stretches(scan: LinearScan, n: nat): seq<Stretch>
    requires n <= |scan.resyncs|
  {
    if n == 0 then [] else Stretches(scan, n - 1) + StretchAt(scan, n - 1)
  }

  /** Instructions and resyncs in address order, and no instruction in what a resync skips. */
  ghost predicate Shaped(scan: LinearScan) {
    && (forall i, j :: 0 <= i < j < |scan.decoded| ==> scan.decoded[i].rva < scan.decoded[j].rva)
    && (forall k :: 0 <= k < |scan.decoded| ==> scan.decoded[k].rva < scan.end)
    && (forall i :: 0 <= i < |scan.resyncs| ==> scan.resyncs[i].stop < scan.resyncs[i].resume < scan.end)
    && (forall i, j :: 0 <= i < j < |scan.resyncs| ==> scan.resyncs[i].resume <= scan.resyncs[j].stop)
    && forall i, k :: 0 <= i < |scan.resyncs| && 0 <= k < |scan.decoded| ==>
         !(scan.resyncs[i].stop <= scan.decoded[k].rva < scan.resyncs[i].resume)
  }

  lemma ScanIsShaped(image: Image, scan: LinearScan, cursor: int, limit: Option<nat>)
    requires IsScan(image, scan, cursor, limit)
    ensures Shaped(scan)
  {
    TilesAscend(scan.decoded, scan.undecodable, scan.start, cursor);
    ResyncsAscend(scan.undecodable, scan.end);
    TiledPiecesHaveBytes(scan.decoded, scan.undecodable, scan.start, cursor);
    hide Tiled, ResyncsFor, Faithful;
    forall i, k | 0 <= i < |scan.resyncs| && 0 <= k < |scan.decoded|
      ensures !(scan.resyncs[i].stop <= scan.decoded[k].rva < scan.resyncs[i].resume) {
      assert Undecoded(scan.undecodable, scan.resyncs[i]);
      var j :| 0 <= j < |scan.undecodable|
               && Resync(scan.undecodable[j].rva, GapEnd(scan.undecodable[j]), scan.undecodable[j].size)
                  == scan.resyncs[i];
      TilesPartition(scan.decoded, scan.undecodable, scan.start, cursor, scan.decoded[k].rva);
      assert InPiece(scan.decoded[k], scan.decoded[k].rva);
      assert !InGap(scan.undecodable[j], scan.decoded[k].rva);
    }
  }

  /** The stretches of a scan, with how many instructions each has. */
  method UnprovenRuns(scan: LinearScan) returns (runs: seq<Stretch>)
    requires Shaped(scan)
    ensures runs == Stretches(scan, |scan.resyncs|)
  {
    hide CountFrom;
    runs := [];
    for i := 0 to |scan.resyncs|
      invariant runs == Stretches(scan, i)
    {
      var limit := if i + 1 < |scan.resyncs| then scan.resyncs[i + 1].stop else scan.end;
      var first := BisectLeft(scan.decoded, scan.resyncs[i].resume);
      var last := BisectLeft(scan.decoded, limit);
      CountBetween(scan.decoded, scan.resyncs[i].resume, limit, first, last);
      if last > first { runs := runs + [Stretch(scan.resyncs[i].resume, limit, last - first)]; }
    }
  }

  /** The stretch an instruction behind the first resync lies in. */
  function StretchOf(scan: LinearScan, rva: int, n: nat): Option<nat>
    requires n <= |scan.resyncs|
  {
    if n == 0 then None
    else if scan.resyncs[n - 1].resume <= rva then Some(n - 1)
    else StretchOf(scan, rva, n - 1)
  }

  /** Every instruction from the first resync on lies in exactly one stretch. */
  lemma InExactlyOneStretch(scan: LinearScan, k: nat)
    requires Shaped(scan)
    requires k < |scan.decoded| && scan.resyncs != [] && scan.decoded[k].rva >= scan.resyncs[0].resume
    ensures exists i :: 0 <= i < |scan.resyncs| && InStretch(scan, i, scan.decoded[k].rva)
    ensures forall i, j :: 0 <= i < j < |scan.resyncs| ==>
              !(InStretch(scan, i, scan.decoded[k].rva) && InStretch(scan, j, scan.decoded[k].rva))
  {
    LastResumeBelow(scan, scan.decoded[k].rva, |scan.resyncs|);
    var i := StretchOf(scan, scan.decoded[k].rva, |scan.resyncs|).value;
    assert InStretch(scan, i, scan.decoded[k].rva);
    forall i, j | 0 <= i < j < |scan.resyncs|
      ensures !(InStretch(scan, i, scan.decoded[k].rva) && InStretch(scan, j, scan.decoded[k].rva)) {
      assert StretchEnd(scan, i) <= scan.resyncs[j].resume;
    }
  }

  /** The instructions that start in a range. */
  function Starting(decoded: seq<Piece>, lo: int, hi: int): set<int> {
    set k | 0 <= k < |decoded| && lo <= decoded[k].rva < hi
  }

  lemma {:induction false} CountIsStarting(decoded: seq<Piece>, lo: int, hi: int)
    ensures CountFrom(decoded, lo, hi) == |Starting(decoded, lo, hi)|
  {
    if decoded != [] {
      var n := |decoded| - 1;
      CountIsStarting(decoded[..n], lo, hi);
      assert Starting(decoded, lo, hi)
             == Starting(decoded[..n], lo, hi) + if lo <= decoded[n].rva < hi then {n} else {};
    }
  }

  /** A stretch goes from where a resync resumed to where the next one stopped, or to the end; it has
      the number of instructions that start there; and a resync without any has none. */
  ghost predicate IsStretch(scan: LinearScan, i: nat, r: Stretch)
    requires i < |scan.resyncs|
  {
    && r.start == scan.resyncs[i].resume
    && r.end == (if i == |scan.resyncs| - 1 then scan.end else scan.resyncs[i + 1].stop)
    && r.count == |Starting(scan.decoded, r.start, r.end)| && r.count > 0
  }

  lemma {:induction false} StretchesExactly(scan: LinearScan, n: nat, r: Stretch)
    requires n <= |scan.resyncs|
    ensures r in Stretches(scan, n) <==> exists i: nat :: i < n && IsStretch(scan, i, r)
  {
    hide CountFrom, Starting;
    if n > 0 {
      StretchesExactly(scan, n - 1, r);
      CountIsStarting(scan.decoded, scan.resyncs[n - 1].resume, StretchEnd(scan, n - 1));
      assert r in StretchAt(scan, n - 1) <==> IsStretch(scan, n - 1, r);
    }
  }

  /** Together the stretches count each of those instructions once. */
  lemma {:induction false} StretchesCountAll(scan: LinearScan, n: nat)
    requires Shaped(scan) && 0 < n <= |scan.resyncs|
    ensures TotalCount(Stretches(scan, n)) == CountFrom(scan.decoded, scan.resyncs[0].resume, StretchEnd(scan, n - 1))
    decreases n
  {
    hide CountFrom, TotalCount, Shaped, StretchEnd;
    ShapedStep(scan, n - 1);
    TotalAppend(Stretches(scan, n - 1), StretchAt(scan, n - 1));
    assert TotalCount(Stretches(scan, n))
           == TotalCount(Stretches(scan, n - 1))
              + CountFrom(scan.decoded, scan.resyncs[n - 1].resume, StretchEnd(scan, n - 1));
    if n == 1 {
      NoStretches(scan);
    } else {
      StretchesCountAll(scan, n - 1);
      NothingBetween(scan, scan.decoded, n - 1);
      CountsAdd(scan.decoded, scan.resyncs[0].resume, scan.resyncs[n - 1].stop, scan.resyncs[n - 1].resume);
      CountsAdd(scan.decoded, scan.resyncs[0].resume, scan.resyncs[n - 1].resume, StretchEnd(scan, n - 1));
    }
  }

  lemma NoStretches(scan: LinearScan)
    ensures TotalCount(Stretches(scan, 0)) == 0
  {
  }

  lemma ShapedStep(scan: LinearScan, i: nat)
    requires Shaped(scan) && i < |scan.resyncs|
    ensures scan.resyncs[i].resume <= StretchEnd(scan, i)
    ensures i > 0 ==> scan.resyncs[0].resume <= scan.resyncs[i].stop < scan.resyncs[i].resume
    ensures i > 0 ==> StretchEnd(scan, i - 1) == scan.resyncs[i].stop
    ensures forall k :: 0 <= k < |scan.decoded| ==>
              !(scan.resyncs[i].stop <= scan.decoded[k].rva < scan.resyncs[i].resume)
  {
  }

  function TotalCount(runs: seq<Stretch>): int {
    if runs == [] then 0 else TotalCount(runs[..|runs| - 1]) + runs[|runs| - 1].count
  }

  lemma TotalAppend(a: seq<Stretch>, b: seq<Stretch>)
    requires |b| <= 1
    ensures TotalCount(a + b) == TotalCount(a) + if b == [] then 0 else b[0].count
  {
    if b == [] { assert a + b == a; } else { assert (a + b)[..|a + b| - 1] == a; }
  }

  lemma {:induction false} CountsAdd(decoded: seq<Piece>, lo: int, mid: int, hi: int)
    requires lo <= mid <= hi
    ensures CountFrom(decoded, lo, hi) == CountFrom(decoded, lo, mid) + CountFrom(decoded, mid, hi)
  {
    if decoded != [] { CountsAdd(decoded[..|decoded| - 1], lo, mid, hi); }
  }

  lemma {:induction false} NothingBetween(scan: LinearScan, decoded: seq<Piece>, i: nat)
    requires i < |scan.resyncs|
    requires forall k :: 0 <= k < |decoded| ==> !(scan.resyncs[i].stop <= decoded[k].rva < scan.resyncs[i].resume)
    ensures CountFrom(decoded, scan.resyncs[i].stop, scan.resyncs[i].resume) == 0
    decreases |decoded|
  {
    if decoded != [] { NothingBetween(scan, decoded[..|decoded| - 1], i); }
  }

  predicate InStretch(scan: LinearScan, i: nat, rva: int)
    requires i < |scan.resyncs|
  {
    scan.resyncs[i].resume <= rva < StretchEnd(scan, i)
  }

  lemma {:induction false} LastResumeBelow(scan: LinearScan, rva: int, n: nat)
    requires 0 < n <= |scan.resyncs| && scan.resyncs[0].resume <= rva
    ensures StretchOf(scan, rva, n).Some?
    ensures var i := StretchOf(scan, rva, n).value;
            i < n && scan.resyncs[i].resume <= rva && (i + 1 < n ==> rva < scan.resyncs[i + 1].resume)
  {
    if scan.resyncs[n - 1].resume > rva { LastResumeBelow(scan, rva, n - 1); }
  }

  lemma {:induction false} TiledPiecesHaveBytes(decoded: seq<Piece>, gaps: seq<Undecodable>, start: int, cursor: int)
    requires Tiled(decoded, gaps, start, cursor)
    ensures forall i :: 0 <= i < |decoded| ==> decoded[i].size > 0
    decreases |decoded| + |gaps|
  {
    if decoded != [] && EndsWithPiece(decoded, cursor)
       && Tiled(decoded[..|decoded| - 1], gaps, start, decoded[|decoded| - 1].rva) {
      TiledPiecesHaveBytes(decoded[..|decoded| - 1], gaps, start, decoded[|decoded| - 1].rva);
    } else if gaps != [] {
      TiledPiecesHaveBytes(decoded, gaps[..|gaps| - 1], start, gaps[|gaps| - 1].rva);
    }
  }
}
