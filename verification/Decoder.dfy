/** Decoding one instruction at a time, with a bounded cache, and honest coverage. */
module Decoder {
  import opened Wrappers
  import opened Image

  datatype Failure = Unreadable | NothingDecoded | SkippedAhead | Unmapped

  /** Why the bytes at a mapped address do not decode. */
  function FailureOf(image: Image, rva: int): Option<Failure> {
    if !IsMapped(image, rva) then Some(Unmapped)
    else match image.code(rva)
      case Decoded(_) => None
      case NoBytes => Some(Unreadable)
      case NothingProduced => Some(NothingDecoded)
      case Resynced => Some(SkippedAhead)
  }

  type Origin = Option<string>

  function Label(o: Origin): string { if o.Some? && o.value != "" then o.value else "?" }

  // ----- the decoded set -----

  predicate Recorded(sizes: seq<nat>, rva: int) { 0 <= rva < |sizes| && sizes[rva] != 0 }

  /** An instruction that runs past the image is not recorded. */
  function SizesAfter(image: Image, sizes: seq<nat>, rva: int): seq<nat> {
    match InsnAt(image, rva)
    case None => sizes
    case Some(insn) =>
      if 0 <= rva < |sizes| && rva + insn.size <= |sizes| then sizes[rva := insn.size] else sizes
  }

  lemma RecordedStays(image: Image, sizes: seq<nat>, rva: int)
    requires SizesOk(image, sizes)
    ensures |sizes| == Span(image) && (Recorded(sizes, rva) ==> SizesAfter(image, sizes, rva) == sizes)
  {
  }

  lemma RecordOk(image: Image, sizes: seq<nat>, rva: nat, insn: Insn)
    requires SizesOk(image, sizes) && DisassemblerOk(image)
    requires InsnAt(image, rva) == Some(insn) && rva < |sizes| && rva + insn.size <= |sizes|
    ensures SizesOk(image, sizes[rva := insn.size]) && Recorded(sizes[rva := insn.size], rva)
    ensures SizesAfter(image, sizes, rva) == sizes[rva := insn.size]
  {
  }

  /** The recorded addresses below a bound, ascending. */
  function RecordedList(sizes: seq<nat>, n: nat): seq<int>
    requires n <= |sizes|
  {
    if n == 0 then []
    else if sizes[n - 1] != 0 then RecordedList(sizes, n - 1) + [n - 1]
    else RecordedList(sizes, n - 1)
  }

  lemma {:induction false} ListedIsRecorded(sizes: seq<nat>, n: nat, k: nat)
    requires n <= |sizes| && k < |RecordedList(sizes, n)|
    ensures Recorded(sizes, RecordedList(sizes, n)[k]) && RecordedList(sizes, n)[k] < n
    ensures k + 1 < |RecordedList(sizes, n)| ==> RecordedList(sizes, n)[k] < RecordedList(sizes, n)[k + 1]
  {
    if n > 0 {
      if k < |RecordedList(sizes, n - 1)| { ListedIsRecorded(sizes, n - 1, k); }
    }
  }

  lemma {:induction false} RecordedIsListed(sizes: seq<nat>, n: nat, rva: int)
    requires n <= |sizes| && Recorded(sizes, rva) && rva < n
    ensures rva in RecordedList(sizes, n)
  {
    if rva < n - 1 { RecordedIsListed(sizes, n - 1, rva); }
  }

  /** The recorded instruction at `start` covers `rva`. */
  predicate Covers(sizes: seq<nat>, start: int, rva: int) {
    0 <= start < |sizes| && start <= rva < start + sizes[start]
  }

  /** Walk back from an address, `back` bytes and more, by at most one instruction. */
  function LookBack(sizes: seq<nat>, rva: int, back: nat): Option<int>
    requires 1 <= back && rva <= |sizes|
    decreases LONGEST_INSN + 1 - back
  {
    if back > LONGEST_INSN || rva - back < 0 then None
    else if Covers(sizes, rva - back, rva) then Some(rva - back)
    else LookBack(sizes, rva, back + 1)
  }

  function Enclosing(sizes: seq<nat>, rva: int): Option<int>
    requires rva <= |sizes|
  {
    if Recorded(sizes, rva) then Some(rva) else LookBack(sizes, rva, 1)
  }

  ghost predicate SizesOk(image: Image, sizes: seq<nat>) {
    && |sizes| == Span(image)
    && forall rva :: Recorded(sizes, rva) ==>
         && InsnAt(image, rva).Some? && InsnAt(image, rva).value.size == sizes[rva]
         && rva + sizes[rva] <= |sizes|
  }

  lemma {:induction false} LookBackExact(sizes: seq<nat>, rva: int, back: nat)
    requires 1 <= back && rva <= |sizes|
    requires forall k :: 0 <= k < |sizes| ==> sizes[k] <= LONGEST_INSN
    ensures LookBack(sizes, rva, back) == None ==> forall start :: start <= rva - back ==> !Covers(sizes, start, rva)
    ensures LookBack(sizes, rva, back).Some? ==>
              var start := LookBack(sizes, rva, back).value;
              && Covers(sizes, start, rva) && start <= rva - back
              && forall s :: start < s <= rva - back ==> !Covers(sizes, s, rva)
    decreases LONGEST_INSN + 1 - back
  {
    if back <= LONGEST_INSN && rva - back >= 0 && !Covers(sizes, rva - back, rva) {
      LookBackExact(sizes, rva, back + 1);
    }
  }

  lemma SizesAreSmall(image: Image, sizes: seq<nat>)
    requires DisassemblerOk(image) && SizesOk(image, sizes)
    ensures forall k :: 0 <= k < |sizes| ==> sizes[k] <= LONGEST_INSN
  {
  }

  /** Fifteen bytes back are enough: an enclosing instruction is found exactly when one is
      recorded, and it is the closest one. */
  lemma EnclosingExactly(image: Image, sizes: seq<nat>, rva: int)
    requires DisassemblerOk(image) && SizesOk(image, sizes) && rva <= |sizes|
    ensures Enclosing(sizes, rva).Some? <==> exists start :: Covers(sizes, start, rva)
    ensures Enclosing(sizes, rva).Some? ==>
              var start := Enclosing(sizes, rva).value;
              Covers(sizes, start, rva) && forall s :: start < s ==> !Covers(sizes, s, rva)
    ensures Enclosing(sizes, rva) == Some(rva) <==> Recorded(sizes, rva)
  {
    SizesAreSmall(image, sizes);
    hide DisassemblerOk, SizesOk, LookBack, Covers, Recorded;
    LookBackExact(sizes, rva, 1);
    CoversItself(sizes, rva);
    forall start | Covers(sizes, start, rva) ensures start == rva || start <= rva - 1 {
      CoversBehind(sizes, start, rva);
    }
    if Recorded(sizes, rva) { assert Covers(sizes, rva, rva); }
    else if LookBack(sizes, rva, 1).Some? { assert Covers(sizes, LookBack(sizes, rva, 1).value, rva); }
  }

  lemma CoversItself(sizes: seq<nat>, rva: int)
    ensures Covers(sizes, rva, rva) <==> Recorded(sizes, rva)
  {
  }

  lemma CoversBehind(sizes: seq<nat>, start: int, rva: int)
    requires Covers(sizes, start, rva)
    ensures start <= rva
  {
  }

  // ----- the cache -----

  datatype Cached = Cached(rva: int, insn: Insn)

  function Without(keys: seq<int>, k: int): (r: seq<int>)
    ensures |r| <= |keys| && (k !in keys ==> r == keys)
    ensures forall x :: x in r <==> x in keys && x != k
  {
    if keys == [] then []
    else if keys[|keys| - 1] == k then Without(keys[..|keys| - 1], k)
    else Without(keys[..|keys| - 1], k) + [keys[|keys| - 1]]
  }

  /** The distinct members of a history, least recently used first. */
  function ByRecency(uses: seq<int>): seq<int> {
    if uses == [] then [] else Without(ByRecency(uses[..|uses| - 1]), uses[|uses| - 1]) + [uses[|uses| - 1]]
  }

  function LastOf<T>(s: seq<T>, n: nat): (r: seq<T>)
    ensures |r| == Min(|s|, n)
  {
    if |s| <= n then s else s[|s| - n..]
  }

  ghost predicate Distinct(s: seq<int>) { forall i, j :: 0 <= i < j < |s| ==> s[i] != s[j] }

  lemma {:induction false} WithoutConcat(a: seq<int>, b: seq<int>, k: int)
    ensures Without(a + b, k) == Without(a, k) + Without(b, k)
    decreases |b|
  {
    if b == [] {
      assert a + b == a;
    } else {
      assert (a + b)[..|a + b| - 1] == a + b[..|b| - 1];
      WithoutConcat(a, b[..|b| - 1], k);
    }
  }

  lemma {:induction false} WithoutDistinct(s: seq<int>, k: int)
    requires Distinct(s)
    ensures Distinct(Without(s, k))
  {
    if s != [] {
      var init, last := s[..|s| - 1], s[|s| - 1];
      WithoutDistinct(init, k);
      AppendDistinct(Without(init, k), last);
    }
  }

  lemma AppendDistinct(s: seq<int>, k: int)
    requires Distinct(s)
    ensures k !in s ==> Distinct(s + [k])
  {
  }

  lemma {:induction false} RecencyDistinct(uses: seq<int>)
    ensures Distinct(ByRecency(uses))
  {
    if uses != [] {
      RecencyDistinct(uses[..|uses| - 1]);
      WithoutDistinct(ByRecency(uses[..|uses| - 1]), uses[|uses| - 1]);
      AppendDistinct(Without(ByRecency(uses[..|uses| - 1]), uses[|uses| - 1]), uses[|uses| - 1]);
    }
  }

  lemma {:induction false} WithoutLength(s: seq<int>, k: int)
    requires Distinct(s) && k in s
    ensures |Without(s, k)| == |s| - 1
  {
    var init, last := s[..|s| - 1], s[|s| - 1];
    if last == k { assert k !in init; } else { WithoutLength(init, k); }
  }

  /** Using `k` keeps the last `n` by recency: a hit moves to the end, a miss pushes out. */
  lemma RecencyStep(d: seq<int>, n: nat, k: int)
    requires Distinct(d)
    ensures LastOf(Without(d, k) + [k], n)
            == if k in LastOf(d, n) then Without(LastOf(d, n), k) + [k] else LastOf(LastOf(d, n) + [k], n)
  {
    hide Without;
    var last := LastOf(d, n);
    var head := d[..|d| - |last|];
    assert d == head + last;
    WithoutConcat(head, last, k);
    if k in last {
      NotInBoth(head, last, k);
      WithoutLength(last, k);
      assert Without(d, k) + [k] == head + (Without(last, k) + [k]);
    } else {
      assert Without(d, k) + [k] == Without(head, k) + (last + [k]);
      assert |last| < n ==> head == [];
    }
  }

  lemma NotInBoth(a: seq<int>, b: seq<int>, k: int)
    requires Distinct(a + b) && k in b
    ensures k !in a && Distinct(b)
  {
    assert forall i :: 0 <= i < |a| ==> (a + b)[i] == a[i];
    assert forall i :: 0 <= i < |b| ==> (a + b)[|a| + i] == b[i];
  }

  function Keys(cache: seq<Cached>): (r: seq<int>)
    ensures |r| == |cache| && forall i :: 0 <= i < |r| ==> r[i] == cache[i].rva
  {
    seq(|cache|, i requires 0 <= i < |cache| => cache[i].rva)
  }

  // ----- coverage -----

  function CountTrue(s: seq<bool>): (r: nat)
    ensures r <= |s|
  {
    if s == [] then 0 else (if s[0] then 1 else 0) + CountTrue(s[1..])
  }

  lemma {:induction false} CountSplit(a: seq<bool>, b: seq<bool>)
    ensures CountTrue(a + b) == CountTrue(a) + CountTrue(b)
  {
    if a == [] {
      assert a + b == b;
    } else {
      assert (a + b)[1..] == a[1..] + b;
      CountSplit(a[1..], b);
    }
  }

  lemma CountSet(s: seq<bool>, i: nat)
    requires i < |s|
    ensures CountTrue(s[i := true]) == CountTrue(s) + if s[i] then 0 else 1
  {
    assert s == s[..i] + [s[i]] + s[i + 1..];
    assert s[i := true] == s[..i] + [true] + s[i + 1..];
    CountSplit(s[..i] + [s[i]], s[i + 1..]);
    CountSplit(s[..i] + [true], s[i + 1..]);
    CountSplit(s[..i], [s[i]]);
    CountSplit(s[..i], [true]);
    assert [s[i]][1..] == [] && [true][1..] == [];
  }

  /** A claim: where, and how many bytes. */
  datatype Claim = Claim(rva: int, size: nat)

  function ClaimEnd(c: Claim, length: nat): int { Min(c.rva + c.size, length) }

  /** The origin of the closest instruction that starts before a byte and takes it in. */
  function OriginBefore(sizes: seq<nat>, origins: map<int, Origin>, offset: int): Origin
    requires offset <= |sizes|
  {
    match LookBack(sizes, offset, 1)
    case None => None
    case Some(start) => if start in origins then origins[start] else None
  }

  predicate Claims(c: Claim, length: nat, b: int) { c.rva <= b < ClaimEnd(c, length) }

  function TotalClaimed(claims: seq<Claim>, length: nat): int {
    if claims == [] then 0
    else TotalClaimed(claims[..|claims| - 1], length)
         + Max(ClaimEnd(claims[|claims| - 1], length) - claims[|claims| - 1].rva, 0)
  }

  type Charges = map<(string, string), nat>

  ghost function TotalCharged(m: Charges): nat
    decreases |m|
  {
    if m == map[] then 0 else var k :| k in m; m[k] + TotalCharged(m - {k})
  }

  lemma {:induction false} TotalWithout(m: Charges, k: (string, string))
    requires k in m
    ensures TotalCharged(m) == m[k] + TotalCharged(m - {k})
    decreases |m|
  {
    var j :| j in m && TotalCharged(m) == m[j] + TotalCharged(m - {j});
    if j != k {
      TotalWithout(m - {j}, k);
      TotalWithout(m - {k}, j);
      assert m - {j} - {k} == m - {k} - {j};
    }
  }

  /** One more byte charged to a pair of classes. */
  function Charged(m: Charges, k: (string, string)): Charges { m[k := (if k in m then m[k] else 0) + 1] }

  lemma TotalAfterCharge(m: Charges, k: (string, string))
    ensures TotalCharged(Charged(m, k)) == TotalCharged(m) + 1
  {
    var m' := Charged(m, k);
    TotalWithout(m', k);
    assert m' - {k} == m - {k};
    if k in m { TotalWithout(m, k); } else { assert m - {k} == m; }
  }

  /** Covered bytes plus overlap bytes are the bytes claimed; a byte is covered exactly when
      some claim contains it; and every overlap byte is charged to one pair of classes. */
  ghost predicate Conserved(covered: seq<bool>, overlap: nat, charges: Charges, claims: seq<Claim>) {
    && CountTrue(covered) + overlap == TotalClaimed(claims, |covered|)
    && overlap == TotalCharged(charges)
    && forall b :: 0 <= b < |covered| ==> (covered[b] <==> exists c :: c in claims && Claims(c, |covered|, b))
  }

  // ----- the decoder -----

  class InstructionDecoder {
    const image: Image
    const cacheSize: nat
    const sizeAt: array<nat>
    const covered: array<bool>
    var bad: map<int, Failure>
    var cache: seq<Cached>
    var instructions: nat
    var overlapBytes: nat
    var overlapConflicts: nat
    var originAt: map<int, Origin>
    var overlapByOrigin: Charges
    ghost var uses: seq<int>       // the addresses decoded and recorded, in order of use
    ghost var claims: seq<Claim>   // every claim made

    ghost predicate CacheOk()
      reads this, sizeAt
    {
      && Keys(cache) == LastOf(ByRecency(uses), cacheSize)
      && forall i :: 0 <= i < |cache| ==>
           InsnAt(image, cache[i].rva) == Some(cache[i].insn) && Recorded(sizeAt[..], cache[i].rva)
    }

    ghost predicate Valid()
      reads this, sizeAt, covered
    {
      && DisassemblerOk(image)
      && SizesOk(image, sizeAt[..]) && covered.Length == sizeAt.Length
      && CacheOk()
      && (forall rva :: rva in bad ==> IsMapped(image, rva) && FailureOf(image, rva) == Some(bad[rva]))
      && overlapConflicts == overlapBytes
      && Conserved(covered[..], overlapBytes, overlapByOrigin, claims)
    }

    constructor (image: Image, cacheSize: nat)
      requires DisassemblerOk(image)
      ensures Valid() && this.image == image && this.cacheSize == cacheSize
      ensures fresh(sizeAt) && fresh(covered)
      ensures (forall rva :: !Recorded(sizeAt[..], rva)) && CountTrue(covered[..]) == 0 && overlapBytes == 0
      ensures bad == map[] && cache == [] && instructions == 0 && uses == [] && claims == []
    {
      this.image, this.cacheSize := image, cacheSize;
      sizeAt := new nat[Span(image)](_ => 0);
      covered := new bool[Span(image)](_ => false);
      bad, cache, instructions := map[], [], 0;
      overlapBytes, overlapConflicts, originAt, overlapByOrigin := 0, 0, map[], map[];
      uses, claims := [], [];
      new;
      NothingCovered(covered[..]);
    }

    method IsDecoded(rva: int) returns (r: bool)
      ensures r == Recorded(sizeAt[..], rva)
    {
      r := 0 <= rva < sizeAt.Length && sizeAt[rva] != 0;
    }

    /** The instruction at an address, exactly as decoding without a cache answers; and the
        decoded set grows by that address, unless the instruction runs past the image. */
    method DecodeOne(rva: int) returns (r: Option<Insn>)
      requires Valid()
      modifies this`bad, this`cache, this`instructions, this`uses, sizeAt
      ensures Valid()
      ensures r == InsnAt(image, rva)
      ensures sizeAt[..] == SizesAfter(image, old(sizeAt[..]), rva)
      ensures r == None ==> FailureReason(rva) == FailureOf(image, rva)
      ensures |cache| <= cacheSize
      ensures instructions == old(instructions)
                + if r.Some? && rva + r.value.size <= sizeAt.Length && rva !in old(Keys(cache)) then 1 else 0
    {
      hide ByRecency, Conserved, SizesOk, DisassemblerOk;
      RecordedStays(image, sizeAt[..], rva);
      if !IsMapped(image, rva) { return None; }
      MappedIsInSpan(image, rva);
      if rva in bad { return None; }
      var hit := Lookup(rva);
      if hit.Some? {
        MoveToEnd(rva, hit.value);
        return hit;
      }
      r := DecodeAfresh(rva);
    }

    /** Ask the disassembler, and remember its answer. */
    method DecodeAfresh(rva: int) returns (r: Option<Insn>)
      requires Valid() && IsMapped(image, rva) && 0 <= rva < sizeAt.Length && rva !in bad && rva !in Keys(cache)
      modifies this`bad, this`cache, this`instructions, this`uses, sizeAt
      ensures Valid()
      ensures r == InsnAt(image, rva)
      ensures sizeAt[..] == SizesAfter(image, old(sizeAt[..]), rva)
      ensures r == None ==> FailureReason(rva) == FailureOf(image, rva)
      ensures instructions == old(instructions) + if r.Some? && rva + r.value.size <= sizeAt.Length then 1 else 0
    {
      hide ByRecency, Conserved, DisassemblerOk, SizesOk;
      match image.code(rva)
      case NoBytes => bad := bad[rva := Unreadable]; r := None;
      case NothingProduced => bad := bad[rva := NothingDecoded]; r := None;
      case Resynced => bad := bad[rva := SkippedAhead]; r := None;
      case Decoded(insn) => Remember(rva, insn); r := Some(insn);
    }

    /** The cached instruction at an address. */
    method Lookup(rva: int) returns (r: Option<Insn>)
      requires CacheOk()
      ensures r.Some? <==> rva in Keys(cache)
      ensures r.Some? ==> r == InsnAt(image, rva) && Recorded(sizeAt[..], rva)
    {
      for i := 0 to |cache|
        invariant forall j :: 0 <= j < i ==> cache[j].rva != rva
      {
        if cache[i].rva == rva {
          assert Keys(cache)[i] == rva;
          return Some(cache[i].insn);
        }
      }
      r := None;
    }

    method MoveToEnd(rva: int, insn: Insn)
      requires CacheOk() && rva in Keys(cache) && InsnAt(image, rva) == Some(insn)
      modifies this`cache, this`uses
      ensures CacheOk() && uses == old(uses) + [rva]
    {
      hide LastOf, ByRecency, Without;
      RecencyAfter(uses, cacheSize, rva);
      KeysDropped(cache, rva);
      ghost var was := cache;
      cache := Dropped(cache, rva) + [Cached(rva, insn)];
      uses := uses + [rva];
      assert Keys(cache) == Without(Keys(was), rva) + [rva];
      forall i | 0 <= i < |cache|
        ensures InsnAt(image, cache[i].rva) == Some(cache[i].insn) && Recorded(sizeAt[..], cache[i].rva) {
        if i < |cache| - 1 { assert cache[i] in was; }
        else { var j :| 0 <= j < |was| && Keys(was)[j] == rva; }
      }
    }

    /** Record what was decoded, unless it runs past the image. */
    method Remember(rva: int, insn: Insn)
      requires CacheOk() && SizesOk(image, sizeAt[..]) && DisassemblerOk(image)
      requires rva !in Keys(cache) && InsnAt(image, rva) == Some(insn) && 0 <= rva < sizeAt.Length
      modifies this`cache, this`instructions, this`uses, sizeAt
      ensures CacheOk() && SizesOk(image, sizeAt[..])
      ensures sizeAt[..] == SizesAfter(image, old(sizeAt[..]), rva)
      ensures instructions == old(instructions) + if rva + insn.size <= sizeAt.Length then 1 else 0
    {
      hide SizesOk, DisassemblerOk, InsnAt;
      hide LastOf, ByRecency;
      if rva + insn.size > sizeAt.Length { return; }
      ghost var was := sizeAt[..];
      sizeAt[rva] := insn.size;
      assert sizeAt[..] == was[rva := insn.size];
      RecordOk(image, was, rva, insn);
      RecencyAfter(uses, cacheSize, rva);
      LastOfAppend(Keys(cache), rva, cacheSize);
      cache := cache + [Cached(rva, insn)];
      if |cache| > cacheSize { cache := cache[1..]; }
      uses := uses + [rva];
      instructions := instructions + 1;
    }

    /** Decoding what is recorded again changes nothing that is recorded. */
    method DecodeAgain(rva: int) returns (r: Option<Insn>)
      requires Valid() && Recorded(sizeAt[..], rva)
      modifies this`bad, this`cache, this`instructions, this`uses, sizeAt
      ensures Valid() && r == InsnAt(image, rva) && r.Some?
      ensures sizeAt[..] == old(sizeAt[..])
    {
      hide CacheOk, Conserved;
      r := DecodeOne(rva);
    }

    /** Every address an instruction starts at, ascending. */
    method DecodedRvas() returns (rvas: seq<int>)
      ensures rvas == RecordedList(sizeAt[..], sizeAt.Length)
    {
      rvas := [];
      for rva := 0 to sizeAt.Length
        invariant rvas == RecordedList(sizeAt[..], rva)
      {
        if sizeAt[rva] != 0 { rvas := rvas + [rva]; }
      }
    }

    function FailureReason(rva: int): Option<Failure>
      reads this
    {
      if rva in bad then Some(bad[rva]) else if !IsMapped(image, rva) then Some(Unmapped) else None
    }

    /** The decoded instruction covering an address, or none. */
    method EnclosingInstruction(rva: int) returns (r: Option<int>)
      requires rva <= sizeAt.Length
      ensures r == Enclosing(sizeAt[..], rva)
    {
      if 0 <= rva < sizeAt.Length && sizeAt[rva] != 0 { return Some(rva); }
      r := Preceding(rva);
    }

    /** The closest instruction that starts before an address and covers it. */
    method Preceding(rva: int) returns (r: Option<int>)
      requires rva <= sizeAt.Length
      ensures r == LookBack(sizeAt[..], rva, 1)
    {
      for back := 1 to LONGEST_INSN + 1
        invariant LookBack(sizeAt[..], rva, 1) == LookBack(sizeAt[..], rva, back)
      {
        var start := rva - back;
        if start < 0 { return None; }
        if sizeAt[start] != 0 && start + sizeAt[start] > rva { return Some(start); }
      }
      r := None;
    }

    /** Claim the bytes of an instruction. A byte already claimed is an overlap instead, and
        charged to the classes of the two claims. */
    method MarkCovered(rva: nat, size: nat, origin: Origin)
      requires Valid()
      modifies this`originAt, this`overlapBytes, this`overlapConflicts, this`overlapByOrigin, this`claims, covered
      ensures Valid()
      ensures claims == old(claims) + [Claim(rva, size)]
      ensures forall b :: 0 <= b < covered.Length ==>
                covered[b] == (old(covered[b]) || Claims(Claim(rva, size), covered.Length, b))
      ensures originAt == if ClaimEnd(Claim(rva, size), covered.Length) <= rva then old(originAt)
                          else old(originAt)[rva := origin]
    {
      hide TotalCharged, SizesOk, ByRecency, LastOf, DisassemblerOk;
      var c := Claim(rva, size);
      var end := Min(rva + size, covered.Length);
      assert (claims + [c])[..|claims + [c]| - 1] == claims;
      assert forall b :: Claims(c, covered.Length, b) <==> rva <= b < end;
      ghost var before := claims;
      if end <= rva {
        claims := claims + [c];
        ConservedEmpty(covered[..], overlapBytes, overlapByOrigin, before, c);
        return;
      }
      originAt := originAt[rva := origin];
      for offset := rva to end
        invariant claims == before && originAt == old(originAt)[rva := origin]
        invariant overlapConflicts == overlapBytes
        invariant overlapBytes == TotalCharged(overlapByOrigin)
        invariant CountTrue(covered[..]) + overlapBytes == TotalClaimed(before, covered.Length) + offset - rva
        invariant forall b :: 0 <= b < covered.Length ==> covered[b] == (old(covered[b]) || rva <= b < offset)
      {
        ClaimByte(offset, origin);
      }
      claims := claims + [c];
      ConservedAfter(old(covered[..]), covered[..], overlapBytes, overlapByOrigin, before, c);
    }

    method ClaimByte(offset: nat, origin: Origin)
      requires offset < covered.Length == sizeAt.Length
      modifies this`overlapBytes, this`overlapConflicts, this`overlapByOrigin, covered
      ensures forall b :: 0 <= b < covered.Length ==> covered[b] == (old(covered[b]) || b == offset)
      ensures overlapBytes == old(overlapBytes) + if old(covered[offset]) then 1 else 0
      ensures overlapConflicts - old(overlapConflicts) == overlapBytes - old(overlapBytes)
              == TotalCharged(overlapByOrigin) - old(TotalCharged(overlapByOrigin))
      ensures CountTrue(covered[..]) + overlapBytes == old(CountTrue(covered[..]) + overlapBytes) + 1
      ensures overlapByOrigin
              == if old(covered[offset])
                 then Charged(old(overlapByOrigin), (Label(OriginBefore(sizeAt[..], originAt, offset)), Label(origin)))
                 else old(overlapByOrigin)
    {
      hide TotalCharged;
      ghost var was := covered[..];
      if covered[offset] {
        overlapBytes := overlapBytes + 1;
        overlapConflicts := overlapConflicts + 1;
        var other := OriginOfByte(offset);
        var key := (Label(other), Label(origin));
        TotalAfterCharge(overlapByOrigin, key);
        overlapByOrigin := Charged(overlapByOrigin, key);
      } else {
        covered[offset] := true;
        assert covered[..] == was[offset := true];
        CountSet(was, offset);
      }
    }

    /** The class that decoded the instruction covering a byte, looking back from the byte before. */
    method OriginOfByte(offset: int) returns (r: Origin)
      requires offset <= sizeAt.Length
      ensures r == OriginBefore(sizeAt[..], originAt, offset)
    {
      var start := Preceding(offset);
      r := if start.Some? && start.value in originAt then originAt[start.value] else None;
    }

    /** Bytes claimed at least once within a range. */
    method CoveredIn(start: int, end: int) returns (r: nat)
      ensures r == CoveredWithin(covered[..], start, end)
    {
      var lo, hi := Max(start, 0), Min(end, covered.Length);
      r := 0;
      if hi > lo {
        for i := lo to hi
          invariant r == CountTrue(covered[lo..i])
        {
          assert covered[lo..i + 1] == covered[lo..i] + [covered[i]];
          CountSplit(covered[lo..i], [covered[i]]);
          assert [covered[i]][1..] == [];
          if covered[i] { r := r + 1; }
        }
      }
    }

    method IsCovered(rva: int) returns (r: bool)
      ensures r == IsClaimed(covered[..], rva)
    {
      r := 0 <= rva < covered.Length && covered[rva];
    }
  }

  predicate IsClaimed(covered: seq<bool>, rva: int) { 0 <= rva < |covered| && covered[rva] }

  function CoveredWithin(covered: seq<bool>, start: int, end: int): nat {
    var lo, hi := Max(start, 0), Min(end, |covered|);
    if hi > lo then CountTrue(covered[lo..hi]) else 0
  }

  function Dropped(cache: seq<Cached>, k: int): seq<Cached> {
    if cache == [] then []
    else if cache[|cache| - 1].rva == k then Dropped(cache[..|cache| - 1], k)
    else Dropped(cache[..|cache| - 1], k) + [cache[|cache| - 1]]
  }

  lemma {:induction false} KeysDropped(cache: seq<Cached>, k: int)
    ensures Keys(Dropped(cache, k)) == Without(Keys(cache), k)
    ensures forall c :: c in Dropped(cache, k) ==> c in cache
  {
    if cache != [] {
      var init, last := cache[..|cache| - 1], cache[|cache| - 1];
      KeysDropped(init, k);
      assert Keys(cache)[..|cache| - 1] == Keys(init);
      assert Keys(Dropped(init, k) + [last]) == Keys(Dropped(init, k)) + [last.rva];
    }
  }

  lemma RecencyAfter(uses: seq<int>, n: nat, k: int)
    ensures var last := LastOf(ByRecency(uses), n);
            LastOf(ByRecency(uses + [k]), n) == if k in last then Without(last, k) + [k] else LastOf(last + [k], n)
  {
    assert (uses + [k])[..|uses + [k]| - 1] == uses;
    RecencyDistinct(uses);
    RecencyStep(ByRecency(uses), n, k);
  }

  lemma LastOfAppend(s: seq<int>, k: int, n: nat)
    requires |s| <= n
    ensures LastOf(s + [k], n) == if |s| + 1 > n then (s + [k])[1..] else s + [k]
  {
  }

  lemma ConservedEmpty(covered: seq<bool>, overlap: nat, charges: Charges, claims: seq<Claim>, c: Claim)
    requires Conserved(covered, overlap, charges, claims) && ClaimEnd(c, |covered|) <= c.rva
    ensures Conserved(covered, overlap, charges, claims + [c])
  {
  }

  lemma ConservedAfter(was: seq<bool>, covered: seq<bool>, overlap: nat, charges: Charges, claims: seq<Claim>, c: Claim)
    requires |was| == |covered|
    requires forall b :: 0 <= b < |was| ==> (was[b] <==> exists c :: c in claims && Claims(c, |was|, b))
    requires forall b :: 0 <= b < |was| ==> covered[b] == (was[b] || Claims(c, |was|, b))
    requires CountTrue(covered) + overlap
             == TotalClaimed(claims, |was|) + Max(ClaimEnd(c, |was|) - c.rva, 0)
    requires overlap == TotalCharged(charges)
    ensures Conserved(covered, overlap, charges, claims + [c])
  {
  }

  lemma {:induction false} NothingCovered(s: seq<bool>)
    requires forall i :: 0 <= i < |s| ==> !s[i]
    ensures CountTrue(s) == 0
  {
    if s != [] { NothingCovered(s[1..]); }
  }
}
