/** Recovered function starts: extents, ownership, pruning, and the two caches behind them. */
module Functions {
  import opened Wrappers
  import opened Image

  type Sizes = map<nat, nat>

  // ----- the definitions everything is held against -----

  /** `s` is the nearest start at or before an address. */
  ghost predicate Precedes(starts: set<nat>, s: nat, rva: int) {
    s in starts && s <= rva && forall t :: t in starts && t <= rva ==> t <= s
  }

  /** A byte at or after `s` belongs to the function at `s`: it lies before the next start,
      and some instruction between `s` and that start ends beyond it. */
  ghost predicate InExtent(starts: set<nat>, claimed: Sizes, s: nat, b: int) {
    && s in starts && s <= b
    && (forall t :: t in starts && s < t ==> b < t)
    && Reached(starts, claimed, claimed.Keys, s, b)
  }

  /** Some instruction among `seen` whose nearest start is `s` ends beyond a byte. */
  ghost predicate Reached(starts: set<nat>, claimed: Sizes, seen: set<nat>, s: nat, b: int) {
    exists rva :: rva in seen && rva in claimed && Precedes(starts, s, rva) && b < rva + claimed[rva]
  }

  datatype OwnerKind = START | BODY | GAP | AFTER | BEFORE | UNMAPPED

  /** Who owns an address, straight from the definitions. */
  ghost predicate Owns(image: Option<Image>, starts: set<nat>, claimed: Sizes, rva: int,
                       owner: Option<nat>, kind: OwnerKind) {
    if rva < 0 || (image.Some? && !IsMapped(image.value, rva)) then owner == None && kind == UNMAPPED
    else if forall s :: s in starts ==> s > rva then owner == None && kind == BEFORE
    else exists s :: Precedes(starts, s, rva) && OwnsBelow(starts, claimed, s, rva, owner, kind)
  }

  ghost predicate OwnsBelow(starts: set<nat>, claimed: Sizes, s: nat, rva: int, owner: Option<nat>, kind: OwnerKind) {
    if s == rva then owner == Some(s) && kind == START
    else if InExtent(starts, claimed, s, rva) then owner == Some(s) && kind == BODY
    else if exists t :: t in starts && t > rva then owner == Some(s) && kind == GAP
    else owner == None && kind == AFTER
  }

  ghost predicate Ascending(q: seq<nat>) { forall i, j :: 0 <= i < j < |q| ==> q[i] < q[j] }

  ghost predicate SortedOf(starts: set<nat>, q: seq<nat>) {
    Ascending(q) && forall s :: s in starts <==> s in q
  }

  ghost predicate ExtentsOf(starts: set<nat>, claimed: Sizes, extents: Sizes) {
    && extents.Keys == starts
    && forall s, b :: s in starts && s <= b ==> (b < s + extents[s] <==> InExtent(starts, claimed, s, b))
  }

  lemma PrecedesUnique(starts: set<nat>, s: nat, t: nat, rva: int)
    requires Precedes(starts, s, rva) && Precedes(starts, t, rva)
    ensures s == t
  {
  }

  /** The extents are pairwise disjoint. */
  lemma ExtentsDisjoint(starts: set<nat>, claimed: Sizes, extents: Sizes, s: nat, t: nat)
    requires ExtentsOf(starts, claimed, extents) && s in starts && t in starts && s < t
    ensures s + extents[s] <= t
  {
    assert !InExtent(starts, claimed, s, t);
  }

  /** They are determined by the starts and the claims. */
  lemma ExtentsUnique(starts: set<nat>, claimed: Sizes, e1: Sizes, e2: Sizes)
    requires ExtentsOf(starts, claimed, e1) && ExtentsOf(starts, claimed, e2)
    ensures e1 == e2
  {
    forall s | s in starts ensures e1[s] == e2[s] {
      assert !InExtent(starts, claimed, s, s + e1[s]) && !InExtent(starts, claimed, s, s + e2[s]);
    }
  }

  /** A start added behind a cached list leaves the list right only if it was there. */
  lemma StaleExactly(starts: set<nat>, q: seq<nat>, rva: nat)
    requires SortedOf(starts, q)
    ensures SortedOf(starts + {rva}, q) <==> rva in starts
  {
  }

  // ----- pruning -----

  /** A tentative start inside the extent its trusted predecessor would have among the
      trusted starts alone. */
  ghost predicate Inside(confident: set<nat>, claimed: Sizes, s: nat) {
    exists c :: Precedes(confident, c, s) && InExtent(confident, claimed, c, s)
  }

  ghost function Demoted(starts: set<nat>, confident: set<nat>, claimed: Sizes): set<nat> {
    set s | s in starts && s !in confident && Inside(confident, claimed, s)
  }

  /** After a pruning no tentative start is left inside, no start is lost, the trusted ones
      stay, and a second pruning finds nothing. */
  lemma PruningIsExact(starts: set<nat>, confident: set<nat>, claimed: Sizes)
    requires confident <= starts
    ensures var left := starts - Demoted(starts, confident, claimed);
            && confident <= left
            && (forall s :: s in left && s !in confident ==> !Inside(confident, claimed, s))
            && Demoted(left, confident, claimed) == {}
            && left + Demoted(starts, confident, claimed) == starts
  {
  }

  /** What survives: a tentative start above a trusted one is kept exactly when nothing
      between that one and the next trusted start was decoded past it. */
  lemma SurvivesExactly(starts: set<nat>, confident: set<nat>, claimed: Sizes, c: nat, s: nat)
    requires s in starts && s !in confident && Precedes(confident, c, s)
    ensures s !in Demoted(starts, confident, claimed) <==>
            forall rva :: rva in claimed && Precedes(confident, c, rva) ==> rva + claimed[rva] <= s
  {
  }

  /** In particular every tentative start that was itself decoded goes, once some trusted
      start lies below it: its own instruction ends past it. */
  lemma DecodedTentativeStartGoes(starts: set<nat>, confident: set<nat>, claimed: Sizes, c: nat, s: nat)
    requires s in starts && s !in confident && Precedes(confident, c, s)
    requires s in claimed && claimed[s] > 0
    ensures s in Demoted(starts, confident, claimed)
  {
  }

  ghost predicate HaveBytes(claimed: Sizes) { forall rva :: rva in claimed ==> claimed[rva] > 0 }

  /** So among the starts that are left, each trusted function has the extent it has among
      the trusted ones alone. */
  lemma TrustedExtentsStand(starts: set<nat>, confident: set<nat>, claimed: Sizes, c: nat, b: int)
    requires confident <= starts && c in confident
    requires HaveBytes(claimed)
    ensures InExtent(starts - Demoted(starts, confident, claimed), claimed, c, b) <==>
              InExtent(confident, claimed, c, b)
  {
    var left := starts - Demoted(starts, confident, claimed);
    PruningIsExact(starts, confident, claimed);
    if InExtent(left, claimed, c, b) {
      var rva :| rva in claimed && Precedes(left, c, rva) && b < rva + claimed[rva];
      assert Precedes(confident, c, rva);
    }
    if InExtent(confident, claimed, c, b) {
      var rva :| rva in claimed && Precedes(confident, c, rva) && b < rva + claimed[rva];
      forall t | t in left && c < t ensures b < t && rva < t {
        if t !in confident && (t <= b || t <= rva) {
          assert t < rva + claimed[rva];
          assert t < Max(b, rva) + 1;
          assert Precedes(confident, c, t);
          SurvivesExactly(starts, confident, claimed, c, t);
          assert false;
        }
      }
    }
  }

  // ----- sorting and searching -----

  /** The members of a set, ascending. */
  method Sort(s: set<nat>) returns (q: seq<nat>)
    ensures SortedOf(s, q)
  {
    q := [];
    var rest := s;
    while rest != {}
      invariant rest <= s && Ascending(q)
      invariant forall x :: x in q <==> x in s - rest
      invariant forall x, y :: x in q && y in rest ==> x < y
      decreases |rest|
    {
      var least := Least(rest);
      AppendAscending(q, least);
      q := q + [least];
      rest := rest - {least};
    }
  }

  lemma AppendAscending(q: seq<nat>, x: nat)
    requires Ascending(q) && forall y :: y in q ==> y < x
    ensures Ascending(q + [x])
  {
    forall i, j | 0 <= i < j < |q + [x]| ensures (q + [x])[i] < (q + [x])[j] {
      assert q[i] in q;
    }
  }

  method Least(s: set<nat>) returns (least: nat)
    requires s != {}
    ensures least in s && forall x :: x in s ==> least <= x
  {
    least :| least in s;
    var rest := s - {least};
    while rest != {}
      invariant rest <= s && least in s && least !in rest
      invariant forall x :: x in s && x !in rest ==> least <= x
      decreases |rest|
    {
      var x :| x in rest;
      rest := rest - {x};
      if x < least { least := x; }
    }
  }

  /** How many members are at or below an address. */
  method BisectRight(q: seq<nat>, rva: int) returns (index: nat)
    requires Ascending(q)
    ensures index <= |q|
    ensures forall i :: 0 <= i < index ==> q[i] <= rva
    ensures forall i :: index <= i < |q| ==> q[i] > rva
  {
    var lo, hi := 0, |q|;
    while lo < hi
      invariant 0 <= lo <= hi <= |q|
      invariant forall i :: 0 <= i < lo ==> q[i] <= rva
      invariant forall i :: hi <= i < |q| ==> q[i] > rva
    {
      var mid := (lo + hi) / 2;
      if rva < q[mid] { hi := mid; } else { lo := mid + 1; }
    }
    index := lo;
  }

  lemma BisectPrecedes(starts: set<nat>, q: seq<nat>, rva: int, index: nat)
    requires SortedOf(starts, q) && index <= |q|
    requires forall i :: 0 <= i < index ==> q[i] <= rva
    requires forall i :: index <= i < |q| ==> q[i] > rva
    ensures index == 0 <==> forall s :: s in starts ==> s > rva
    ensures index > 0 ==> Precedes(starts, q[index - 1], rva)
    ensures index < |q| ==> q[index] in starts && q[index] > rva
    ensures forall t :: t in starts && t > rva ==> index < |q| && q[index] <= t
  {
    if index > 0 {
      assert q[index - 1] in q;
      forall t | t in starts && t <= rva ensures t <= q[index - 1] {
        var j :| 0 <= j < |q| && q[j] == t;
      }
    }
    forall t | t in starts && t > rva ensures index < |q| && q[index] <= t {
      var j :| 0 <= j < |q| && q[j] == t;
    }
  }

  // ----- furthest claimed bytes per start -----

  /** `ends` has the furthest end among the instructions `seen` of each start. */
  ghost predicate EndsOf(starts: set<nat>, claimed: Sizes, seen: set<nat>, ends: Sizes) {
    forall s, b: nat :: s in starts && s <= b ==>
      (Reached(starts, claimed, seen, s, b) <==> s in ends && b < ends[s])
  }

  function Raised(ends: Sizes, owner: Option<nat>, end: nat): Sizes {
    match owner
    case None => ends
    case Some(s) => ends[s := Max(if s in ends then ends[s] else 0, end)]
  }

  lemma EndsAfter(starts: set<nat>, claimed: Sizes, seen: set<nat>, ends: Sizes, rva: nat, owner: Option<nat>)
    requires EndsOf(starts, claimed, seen, ends) && rva in claimed
    requires owner.Some? ==> Precedes(starts, owner.value, rva)
    requires owner.None? ==> forall s :: s in starts ==> s > rva
    ensures EndsOf(starts, claimed, seen + {rva}, Raised(ends, owner, rva + claimed[rva]))
  {
    var ends' := Raised(ends, owner, rva + claimed[rva]);
    forall s, b: nat | s in starts && s <= b
      ensures Reached(starts, claimed, seen + {rva}, s, b) <==> s in ends' && b < ends'[s] {
      ReachedAfter(starts, claimed, seen, s, b, rva);
      if owner.Some? && Precedes(starts, s, rva) { PrecedesUnique(starts, s, owner.value, rva); }
    }
  }

  lemma ReachedAfter(starts: set<nat>, claimed: Sizes, seen: set<nat>, s: nat, b: int, rva: nat)
    requires rva in claimed
    ensures Reached(starts, claimed, seen + {rva}, s, b) <==>
            Reached(starts, claimed, seen, s, b) || (Precedes(starts, s, rva) && b < rva + claimed[rva])
  {
  }

  lemma ExtentFromEnd(starts: set<nat>, claimed: Sizes, ends: Sizes, q: seq<nat>, i: nat)
    requires SortedOf(starts, q) && EndsOf(starts, claimed, claimed.Keys, ends) && i < |q|
    ensures forall b :: q[i] <= b ==>
              (b < q[i] + ClippedSize(ends, q, i) <==> InExtent(starts, claimed, q[i], b))
  {
    hide Reached;
    var s := q[i];
    assert s in q && s in starts;
    forall t | t in starts && s < t ensures i + 1 < |q| && q[i + 1] <= t {
      var j :| 0 <= j < |q| && q[j] == t;
    }
    assert i + 1 < |q| ==> q[i + 1] in q;
  }

  /** The furthest end of the i-th start, clipped at the next one. */
  function ClippedSize(ends: Sizes, q: seq<nat>, i: nat): nat
    requires i < |q|
  {
    var end := if q[i] in ends then ends[q[i]] else q[i];
    Max((if i + 1 < |q| then Min(end, q[i + 1]) else end) - q[i], 0)
  }

  // ----- the table -----

  class FunctionTable {
    const image: Option<Image>
    var starts: set<nat>
    var confident: set<nat>
    var codeSeeds: set<nat>
    var callTargets: set<nat>
    var sorted: Option<seq<nat>>
    var extentsCache: Option<Sizes>
    var claimed: Sizes

    /** Whatever is cached is right. */
    ghost predicate Coherent()
      reads this
    {
      && (sorted.Some? ==> SortedOf(starts, sorted.value))
      && (extentsCache.Some? ==> ExtentsOf(starts, claimed, extentsCache.value))
    }

    constructor (image: Option<Image>)
      ensures this.image == image && starts == confident == codeSeeds == callTargets == {} && claimed == map[]
      ensures sorted == None && extentsCache == None
    {
      this.image := image;
      starts, confident, codeSeeds, callTargets := {}, {}, {}, {};
      sorted, extentsCache, claimed := None, None, map[];
    }

    method AddStart(rva: nat, conf: bool) returns (isNew: bool)
      modifies this`starts, this`confident
      ensures starts == old(starts) + {rva}
      ensures confident == if conf then old(confident) + {rva} else old(confident)
      ensures isNew == (rva !in old(starts))
    {
      isNew := rva !in starts;
      starts := starts + {rva};
      if conf { confident := confident + {rva}; }
    }

    method AddCodeSeed(rva: nat) returns (isNew: bool)
      modifies this`codeSeeds
      ensures codeSeeds == old(codeSeeds) + {rva} && isNew == (rva !in old(codeSeeds))
    {
      isNew := rva !in codeSeeds;
      codeSeeds := codeSeeds + {rva};
    }

    method AddCallTarget(rva: nat) returns (isNew: bool)
      modifies this`callTargets
      ensures callTargets == old(callTargets) + {rva} && isNew == (rva !in old(callTargets))
    {
      isNew := rva !in callTargets;
      callTargets := callTargets + {rva};
    }

    method NoteInstruction(rva: nat, size: nat)
      modifies this`claimed
      ensures claimed == old(claimed)[rva := size]
    {
      claimed := claimed[rva := size];
    }

    /** Forget what is cached, which makes the caches right whatever changed before. */
    method Invalidate()
      modifies this`sorted, this`extentsCache
      ensures Coherent() && sorted == None && extentsCache == None
    {
      sorted, extentsCache := None, None;
    }

    /** Demote the tentative starts that fall inside a trusted function. */
    method PruneStartsInsideFunctions() returns (demoted: nat)
      requires confident <= starts
      modifies this`starts, this`codeSeeds, this`sorted, this`extentsCache
      ensures starts == old(starts) - Demoted(old(starts), confident, claimed)
      ensures codeSeeds == old(codeSeeds) + Demoted(old(starts), confident, claimed)
      ensures demoted == |Demoted(old(starts), confident, claimed)|
      ensures if demoted > 0 then sorted == None && extentsCache == None
              else sorted == old(sorted) && extentsCache == old(extentsCache)
      ensures old(Coherent()) ==> Coherent()
    {
      hide Inside, EndsOf, ExtentsOf;
      var trusted := Sort(confident);
      if |trusted| == 0 {
        NothingTrusted(starts, confident, claimed);
        return 0;
      }
      var ends := FurthestEnds(confident, trusted);
      var all := Sort(starts);
      demoted := PruneAll(all, trusted, ends);
      if demoted > 0 { Invalidate(); } else { assert starts == old(starts); }
    }

    method PruneAll(all: seq<nat>, trusted: seq<nat>, ends: Sizes) returns (demoted: nat)
      requires SortedOf(starts, all)
      requires SortedOf(confident, trusted) && EndsOf(confident, claimed, claimed.Keys, ends)
      modifies this`starts, this`codeSeeds
      ensures starts == old(starts) - Demoted(old(starts), confident, claimed)
      ensures codeSeeds == old(codeSeeds) + Demoted(old(starts), confident, claimed)
      ensures demoted == |Demoted(old(starts), confident, claimed)|
    {
      hide Inside, EndsOf, SortedOf, GoneAmong, Demoted;
      ghost var was, seeds := starts, codeSeeds;
      demoted := 0;
      GoneAmongEnds(was, confident, claimed, all);
      for i := 0 to |all|
        invariant starts == was - GoneAmong(was, confident, claimed, all[..i])
        invariant codeSeeds == seeds + GoneAmong(was, confident, claimed, all[..i])
        invariant demoted == |GoneAmong(was, confident, claimed, all[..i])|
      {
        GoneAmongNext(was, confident, claimed, all, i);
        var gone := PruneOne(all[i], trusted, ends);
        SetStep(was, seeds, GoneAmong(was, confident, claimed, all[..i]), all[i]);
        if gone { demoted := demoted + 1; }
      }
      assert all[..|all|] == all;
    }

    method PruneOne(rva: nat, trusted: seq<nat>, ends: Sizes) returns (gone: bool)
      requires SortedOf(confident, trusted) && EndsOf(confident, claimed, claimed.Keys, ends)
      modifies this`starts, this`codeSeeds
      ensures gone <==> rva !in confident && Inside(confident, claimed, rva)
      ensures starts == if gone then old(starts) - {rva} else old(starts)
      ensures codeSeeds == if gone then old(codeSeeds) + {rva} else old(codeSeeds)
    {
      hide Inside, EndsOf;
      var inside := IsInside(trusted, ends, rva);
      gone := rva !in confident && inside;
      if gone {
        starts := starts - {rva};
        codeSeeds := codeSeeds + {rva};
      }
    }

    /** Whether a start lies below the clipped end of its trusted predecessor. */
    method IsInside(trusted: seq<nat>, ends: Sizes, rva: nat) returns (inside: bool)
      requires SortedOf(confident, trusted) && EndsOf(confident, claimed, claimed.Keys, ends)
      ensures inside <==> Inside(confident, claimed, rva)
    {
      hide InExtent, EndsOf;
      var index := BisectRight(trusted, rva);
      BisectPrecedes(confident, trusted, rva, index);
      if index == 0 { return false; }
      var owner := trusted[index - 1];
      var end := if owner in ends then ends[owner] else owner;
      if index < |trusted| { end := Min(end, trusted[index]); }
      inside := rva < end;
      ExtentFromEnd(confident, claimed, ends, trusted, index - 1);
      assert inside <==> InExtent(confident, claimed, owner, rva);
      if Inside(confident, claimed, rva) {
        var c :| Precedes(confident, c, rva) && InExtent(confident, claimed, c, rva);
        PrecedesUnique(confident, c, owner, rva);
      }
    }

    /** One pass over the claims: the furthest end for each of the given starts. */
    method FurthestEnds(of: set<nat>, q: seq<nat>) returns (ends: Sizes)
      requires SortedOf(of, q)
      ensures EndsOf(of, claimed, claimed.Keys, ends)
    {
      ends := map[];
      var rest := claimed.Keys;
      while rest != {}
        invariant rest <= claimed.Keys && EndsOf(of, claimed, claimed.Keys - rest, ends)
        decreases |rest|
      {
        hide EndsOf, Precedes, SortedOf;
        var rva: nat :| rva in rest;
        var index := BisectRight(q, rva) by { AscendingOf(of, q); }
        BisectPrecedes(of, q, rva, index);
        EndsAfter(of, claimed, claimed.Keys - rest, ends, rva, if index == 0 then None else Some(q[index - 1]));
        assert claimed.Keys - rest + {rva} == claimed.Keys - (rest - {rva});
        rest := rest - {rva};
        if index > 0 {
          var owner := q[index - 1];
          ends := ends[owner := Max(if owner in ends then ends[owner] else 0, rva + claimed[rva])];
        }
      }
      assert claimed.Keys - {} == claimed.Keys;
    }

    // ----- queries -----

    method SortedStarts() returns (q: seq<nat>)
      requires Coherent()
      modifies this`sorted
      ensures SortedOf(starts, q) && sorted == Some(q) && Coherent()
    {
      if sorted == None {
        q := Sort(starts);
        sorted := Some(q);
      } else {
        q := sorted.value;
      }
    }

    /** The nearest start at or before an address, however far. */
    method Containing(rva: int) returns (r: Option<nat>)
      requires Coherent()
      modifies this`sorted
      ensures Coherent()
      ensures match r case Some(s) => Precedes(starts, s, rva) case None => forall s :: s in starts ==> s > rva
    {
      var q := SortedStarts();
      var index := BisectRight(q, rva);
      BisectPrecedes(starts, q, rva, index);
      r := if index == 0 then None else Some(q[index - 1]);
    }

    /** Every start's size, in one pass. */
    method Extents() returns (extents: Sizes)
      requires Coherent()
      modifies this`sorted, this`extentsCache
      ensures ExtentsOf(starts, claimed, extents) && Coherent()
    {
      if extentsCache.Some? { return extentsCache.value; }
      var q := SortedStarts();
      var ends := FurthestEnds(starts, q);
      extents := map[];
      for i := 0 to |q|
        invariant extents.Keys == (set j | 0 <= j < i :: q[j])
        invariant forall j :: 0 <= j < i ==> q[j] in extents && extents[q[j]] == ClippedSize(ends, q, j)
      {
        extents := extents[q[i] := ClippedSize(ends, q, i)];
      }
      ExtentsFromEnds(starts, claimed, ends, q, extents);
      extentsCache := Some(extents);
    }

    method ExtentOf(rva: nat) returns (size: nat)
      requires Coherent()
      modifies this`sorted, this`extentsCache
      ensures Coherent()
      ensures rva !in starts ==> size == 0
      ensures forall b :: rva in starts && rva <= b ==> (b < rva + size <==> InExtent(starts, claimed, rva, b))
    {
      var extents := Extents();
      size := if rva in extents then extents[rva] else 0;
    }

    /** Who owns an address, bounded by the extents. */
    method OwnerOf(rva: int) returns (owner: Option<nat>, kind: OwnerKind)
      requires Coherent()
      modifies this`sorted, this`extentsCache
      ensures Coherent()
      ensures Owns(image, starts, claimed, rva, owner, kind)
    {
      hide InExtent;
      if rva < 0 { return None, UNMAPPED; }
      if image.Some? && !IsMapped(image.value, rva) { return None, UNMAPPED; }
      var q := SortedStarts();
      var index := BisectRight(q, rva);
      BisectPrecedes(starts, q, rva, index);
      if index == 0 { return None, BEFORE; }
      var start := q[index - 1];
      if rva == start { return Some(start), START; }
      var extents := Extents();
      if rva < start + extents[start] { return Some(start), BODY; }
      if index < |q| { return Some(start), GAP; }
      return None, AFTER;
    }
  }

  lemma AscendingOf(starts: set<nat>, q: seq<nat>)
    requires SortedOf(starts, q)
    ensures Ascending(q)
  {
  }

  /** The starts among `q` that pruning demotes. */
  ghost function GoneAmong(was: set<nat>, confident: set<nat>, claimed: Sizes, q: seq<nat>): set<nat> {
    Demoted(was, confident, claimed) * (set s | s in q)
  }

  lemma GoneAmongNext(was: set<nat>, confident: set<nat>, claimed: Sizes, all: seq<nat>, i: nat)
    requires SortedOf(was, all) && i < |all|
    ensures var gone := GoneAmong(was, confident, claimed, all[..i]);
            GoneAmong(was, confident, claimed, all[..i + 1])
            == gone + if all[i] !in confident && Inside(confident, claimed, all[i]) then {all[i]} else {}
    ensures all[i] !in GoneAmong(was, confident, claimed, all[..i])
  {
  }

  lemma GoneAmongEnds(was: set<nat>, confident: set<nat>, claimed: Sizes, all: seq<nat>)
    requires SortedOf(was, all)
    ensures GoneAmong(was, confident, claimed, all[..0]) == {}
    ensures GoneAmong(was, confident, claimed, all) == Demoted(was, confident, claimed)
  {
  }

  lemma SetStep(a: set<nat>, b: set<nat>, g: set<nat>, x: nat)
    ensures a - g - {x} == a - (g + {x}) && b + g + {x} == b + (g + {x}) && g + {} == g
    ensures x !in g ==> |g + {x}| == |g| + 1
  {
  }

  lemma NothingTrusted(starts: set<nat>, confident: set<nat>, claimed: Sizes)
    requires forall c: nat :: c !in confident
    ensures Demoted(starts, confident, claimed) == {}
  {
  }

  lemma ExtentsFromEnds(starts: set<nat>, claimed: Sizes, ends: Sizes, q: seq<nat>, extents: Sizes)
    requires SortedOf(starts, q) && EndsOf(starts, claimed, claimed.Keys, ends)
    requires extents.Keys == set j | 0 <= j < |q| :: q[j]
    requires forall j :: 0 <= j < |q| ==> q[j] in extents && extents[q[j]] == ClippedSize(ends, q, j)
    ensures ExtentsOf(starts, claimed, extents)
  {
    hide InExtent, EndsOf, ClippedSize;
    forall s ensures s in extents.Keys <==> s in starts {
      if s in starts { var j :| 0 <= j < |q| && q[j] == s; }
    }
    forall s, b | s in starts && s <= b ensures b < s + extents[s] <==> InExtent(starts, claimed, s, b) {
      var j :| 0 <= j < |q| && q[j] == s;
      ExtentFromEnd(starts, claimed, ends, q, j);
    }
  }
}
