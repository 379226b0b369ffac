/** Value sets of a fixed address: the join, what a run can leave there, and guards. */
module Values {
  import opened Wrappers
  import opened Image
  import opened Consts
  import opened Decoder

  datatype Bound = NONE | SET | RANGE | UNBOUNDED | UNMODELED | UNREPRESENTABLE

  datatype Note = StoresImmediate(value: int) | PreviousValueParticipates | SourceRegister | OtherSource
                | UnresolvedCall | GuardImplies(lo: Option<int>, hi: Option<int>)

  datatype Evidence = Evidence(rva: int, note: Note)

  datatype ValueSet = ValueSet(kind: Bound, values: set<int>, lo: int, hi: int,
                               writers: seq<Evidence>, unmodeled: seq<Evidence>, parts: seq<ValueSet>,
                               unresolvedWrites: nat, reason: string)

  const EMPTY: ValueSet := ValueSet(NONE, {}, 0, 0, [], [], [], 0, "")

  function OfValue(value: int, rva: int): ValueSet {
    EMPTY.(kind := SET, values := {value}, writers := [Evidence(rva, StoresImmediate(value))])
  }

  function OfUnmodeled(rva: int, note: Note): ValueSet {
    EMPTY.(kind := UNMODELED, unmodeled := [Evidence(rva, note)])
  }

  predicate IsDecided(v: ValueSet) { v.kind in {NONE, SET, RANGE} }

  /** Membership, which an undecided set refuses to answer. */
  function Contains(v: ValueSet, x: int): Option<bool> {
    match v.kind
    case NONE => Some(false)
    case SET => Some(x in v.values)
    case RANGE => Some(v.lo <= x <= v.hi)
    case _ => None
  }

  /** Every form has what its constructor demands. */
  predicate FormOk(v: ValueSet) {
    && (v.kind == NONE ==> v.writers == [] && v.unmodeled == [] && v.parts == [])
    && (v.kind == RANGE ==> v.lo <= v.hi)
    && (v.kind == UNBOUNDED ==> v.writers != [] && v.reason != "")
    && (v.kind == UNMODELED <==> v.unmodeled != [])
    && (v.kind == UNREPRESENTABLE ==> |v.parts| >= 2)
    && (v.kind in {SET, RANGE} ==> v.parts == [])
  }

  predicate WellFormed(v: ValueSet) {
    FormOk(v) && forall p :: p in v.parts ==> WellFormed(p)
  }

  /** What a set admits; where the union has no single form, what its parts admit. */
  predicate Admits(v: ValueSet, x: int) {
    match v.kind
    case NONE => false
    case SET => x in v.values
    case RANGE => v.lo <= x <= v.hi
    case UNBOUNDED => true
    case UNMODELED => true
    case UNREPRESENTABLE => exists p :: p in v.parts && Admits(p, x)
  }

  // ----- the join -----

  /** `None` where the constructor of UNBOUNDED raises. */
  function Unbounded(reason: string, writers: seq<Evidence>, parts: seq<ValueSet>, unresolved: nat): Option<ValueSet> {
    if writers == [] || reason == "" then None
    else Some(ValueSet(UNBOUNDED, {}, 0, 0, writers, [], parts, unresolved, reason))
  }

  function JoinedReason(a: ValueSet, b: ValueSet): string {
    var first := if a.kind == UNBOUNDED then a.reason else "";
    var second := if b.kind == UNBOUNDED then b.reason else "";
    if first != "" && second != "" then first + "; " + second
    else if first != "" then first
    else if second != "" then second
    else "a joined writer admits any value"
  }

  function Widen(a: ValueSet, b: ValueSet): Option<ValueSet> {
    if b.kind == NONE then Some(a)
    else if a.kind == NONE then Some(b)
    else
      var writers, unmodeled := a.writers + b.writers, a.unmodeled + b.unmodeled;
      var unresolved, parts := a.unresolvedWrites + b.unresolvedWrites, a.parts + b.parts;
      if a.kind == UNMODELED || b.kind == UNMODELED then
        Some(ValueSet(UNMODELED, {}, 0, 0, writers, unmodeled, parts, unresolved, ""))
      else if a.kind == UNBOUNDED || b.kind == UNBOUNDED then
        Unbounded(JoinedReason(a, b), writers, parts, unresolved)
      else if a.kind == UNREPRESENTABLE || b.kind == UNREPRESENTABLE then
        var separate := (if a.kind != UNREPRESENTABLE then [a] else []) + if b.kind != UNREPRESENTABLE then [b] else [];
        Some(ValueSet(UNREPRESENTABLE, {}, 0, 0, writers, [], parts + separate, unresolved, ""))
      else if a.kind == SET && b.kind == SET then
        Some(ValueSet(SET, a.values + b.values, 0, 0, writers, [], [], unresolved, ""))
      else if a.kind == RANGE && b.kind == RANGE then
        Some(ValueSet(RANGE, {}, Min(a.lo, b.lo), Max(a.hi, b.hi), writers, [], [], unresolved, ""))
      else
        var (values, interval) := if a.kind == SET then (a, b) else (b, a);
        if forall v :: v in values.values ==> interval.lo <= v <= interval.hi then
          Some(ValueSet(RANGE, {}, interval.lo, interval.hi, writers, [], [], unresolved, ""))
        else
          Some(ValueSet(UNREPRESENTABLE, {}, 0, 0, writers, [], [values, interval], unresolved, ""))
  }

  lemma WidenForm(a: ValueSet, b: ValueSet)
    requires FormOk(a) && FormOk(b)
    ensures Widen(a, b).Some? && FormOk(Widen(a, b).value)
    ensures Widen(a, b).value.writers == a.writers + b.writers
    ensures Widen(a, b).value.unmodeled == a.unmodeled + b.unmodeled
  {
  }

  lemma WidenParts(a: ValueSet, b: ValueSet, p: ValueSet)
    requires Widen(a, b).Some? && p in Widen(a, b).value.parts
    ensures p in a.parts || p in b.parts || p == a || p == b
  {
  }

  /** On well-formed sets the join never raises, gives a well-formed set, and names all the
      writers of both. */
  lemma WidenIsDefined(a: ValueSet, b: ValueSet)
    requires WellFormed(a) && WellFormed(b)
    ensures Widen(a, b).Some? && WellFormed(Widen(a, b).value)
    ensures Widen(a, b).value.writers == a.writers + b.writers
    ensures Widen(a, b).value.unmodeled == a.unmodeled + b.unmodeled
  {
    WidenForm(a, b);
    hide Widen, FormOk;
    forall p | p in Widen(a, b).value.parts ensures WellFormed(p) { WidenParts(a, b, p); }
  }

  /** What makes a join unbounded is told, of both sides if it is both. */
  lemma WidenKeepsReasons(a: ValueSet, b: ValueSet)
    requires WellFormed(a) && WellFormed(b) && a.kind == UNBOUNDED
    ensures b.kind == UNBOUNDED ==> Widen(a, b).value.reason == a.reason + "; " + b.reason
    ensures b.kind !in {UNBOUNDED, UNMODELED} ==>
              Widen(a, b).value.reason == a.reason && (b.kind != NONE ==> Widen(b, a).value.reason == a.reason)
  {
  }

  /** It admits all that either side admits. */
  lemma WidenIsSound(a: ValueSet, b: ValueSet, x: int)
    requires WellFormed(a) && WellFormed(b)
    ensures Widen(a, b).Some?
    ensures Admits(a, x) || Admits(b, x) ==> Admits(Widen(a, b).value, x)
  {
  }

  /** It admits nothing more, unless two ranges with a gap between them were joined. */
  lemma WidenIsTight(a: ValueSet, b: ValueSet, x: int)
    requires WellFormed(a) && WellFormed(b)
    ensures Widen(a, b).Some?
    ensures Admits(Widen(a, b).value, x) ==>
              Admits(a, x) || Admits(b, x)
              || (a.kind == RANGE && b.kind == RANGE && (a.hi < x < b.lo || b.hi < x < a.lo))
  {
    WidenForm(a, b);
    hide WellFormed;
    if Widen(a, b).value.kind == UNREPRESENTABLE && Admits(Widen(a, b).value, x) {
      hide Widen;
      var p :| p in Widen(a, b).value.parts && Admits(p, x);
      WidenParts(a, b, p);
      if p in a.parts { PartAdmits(a, p, x); }
      if p in b.parts { PartAdmits(b, p, x); }
    }
  }

  lemma PartAdmits(v: ValueSet, p: ValueSet, x: int)
    requires FormOk(v) && p in v.parts && Admits(p, x)
    ensures Admits(v, x)
  {
  }

  /** The count of unresolved writes is the sum of the two exactly when no counting set is
      joined with an empty one. */
  lemma WidenCountsExactly(a: ValueSet, b: ValueSet)
    requires WellFormed(a) && WellFormed(b)
    ensures Widen(a, b).value.unresolvedWrites == a.unresolvedWrites + b.unresolvedWrites
            <==> (b.kind == NONE ==> b.unresolvedWrites == 0)
                 && (a.kind == NONE && b.kind != NONE ==> a.unresolvedWrites == 0)
  {
  }

  /** Joining a set with an empty one that counts a write keeps the set as it is. */
  lemma CountLost()
    ensures Widen(OfValue(1, 0), EMPTY.(unresolvedWrites := 1)).value.unresolvedWrites == 0
  {
  }

  /** All values of a set lie between two bounds. */
  predicate Within(v: ValueSet, lo: int, hi: int) { forall x :: x in v.values ==> lo <= x <= hi }

  /** The order of joining does not matter for the form: not if a set and two ranges meet in an
      order where the set is swallowed by both ranges together but not by its neighbour. */
  predicate OrderFree(a: ValueSet, b: ValueSet, c: ValueSet) {
    if a.kind == SET && b.kind == RANGE && c.kind == RANGE then
      Within(a, b.lo, b.hi) || !Within(a, Min(b.lo, c.lo), Max(b.hi, c.hi))
    else if a.kind == RANGE && b.kind == SET && c.kind == RANGE then
      Within(b, a.lo, a.hi) == Within(b, c.lo, c.hi)
    else if a.kind == RANGE && b.kind == RANGE && c.kind == SET then
      Within(c, b.lo, b.hi) || !Within(c, Min(a.lo, b.lo), Max(a.hi, b.hi))
    else true
  }

  function LeftFirst(a: ValueSet, b: ValueSet, c: ValueSet): Option<ValueSet> {
    match Widen(a, b) case None => None case Some(ab) => Widen(ab, c)
  }

  function RightFirst(a: ValueSet, b: ValueSet, c: ValueSet): Option<ValueSet> {
    match Widen(b, c) case None => None case Some(bc) => Widen(a, bc)
  }

  /** The form of a join of three is the same either way round exactly for these; with an
      empty, unbounded, unmodelled or unrepresentable one among them it always is. */
  lemma KindAssociatesExactly(a: ValueSet, b: ValueSet, c: ValueSet)
    requires WellFormed(a) && WellFormed(b) && WellFormed(c)
    ensures LeftFirst(a, b, c).Some? && RightFirst(a, b, c).Some?
    ensures LeftFirst(a, b, c).value.kind == RightFirst(a, b, c).value.kind <==> OrderFree(a, b, c)
  {
    WidenIsDefined(a, b);
    WidenIsDefined(b, c);
    var ab, bc := Widen(a, b).value, Widen(b, c).value;
    WidenIsDefined(ab, c);
    WidenIsDefined(a, bc);
    WidenShape(a, b);
    WidenShape(b, c);
    WidenShape(ab, c);
    WidenShape(a, bc);
    hide Widen, WellFormed, FormOk;
    if a.kind in {SET, RANGE} && b.kind in {SET, RANGE} && c.kind in {SET, RANGE} {
      PlainKindAssociates(a, b, c, ab, bc);
    }
  }

  /** The form of a join, from the forms of its sides and what lies in what. */
  function JoinedKind(a: ValueSet, b: ValueSet): Bound {
    if b.kind == NONE then a.kind
    else if a.kind == NONE then b.kind
    else if a.kind == UNMODELED || b.kind == UNMODELED then UNMODELED
    else if a.kind == UNBOUNDED || b.kind == UNBOUNDED then UNBOUNDED
    else if a.kind == UNREPRESENTABLE || b.kind == UNREPRESENTABLE then UNREPRESENTABLE
    else if a.kind == b.kind then a.kind
    else if (if a.kind == SET then Within(a, b.lo, b.hi) else Within(b, a.lo, a.hi)) then RANGE
    else UNREPRESENTABLE
  }

  lemma WidenShape(a: ValueSet, b: ValueSet)
    requires FormOk(a) && FormOk(b) && Widen(a, b).Some?
    ensures var v := Widen(a, b).value;
            && v.kind == JoinedKind(a, b)
            && (a.kind == SET && b.kind == SET ==> v.values == a.values + b.values)
            && (a.kind == RANGE && b.kind == RANGE ==> v.lo == Min(a.lo, b.lo) && v.hi == Max(a.hi, b.hi))
            && (a.kind == RANGE && b.kind == SET && v.kind == RANGE ==> v.lo == a.lo && v.hi == a.hi)
            && (a.kind == SET && b.kind == RANGE && v.kind == RANGE ==> v.lo == b.lo && v.hi == b.hi)
  {
  }

  /** Among sets and ranges. */
  lemma PlainKindAssociates(a: ValueSet, b: ValueSet, c: ValueSet, ab: ValueSet, bc: ValueSet)
    requires a.kind in {SET, RANGE} && b.kind in {SET, RANGE} && c.kind in {SET, RANGE}
    requires ab.kind == JoinedKind(a, b) && bc.kind == JoinedKind(b, c)
    requires a.kind == SET && b.kind == SET ==> ab.values == a.values + b.values
    requires b.kind == SET && c.kind == SET ==> bc.values == b.values + c.values
    requires a.kind == RANGE && b.kind == RANGE ==> ab.lo == Min(a.lo, b.lo) && ab.hi == Max(a.hi, b.hi)
    requires b.kind == RANGE && c.kind == RANGE ==> bc.lo == Min(b.lo, c.lo) && bc.hi == Max(b.hi, c.hi)
    requires a.kind != b.kind && ab.kind == RANGE ==>
               ab.lo == (if a.kind == RANGE then a.lo else b.lo) && ab.hi == (if a.kind == RANGE then a.hi else b.hi)
    requires b.kind != c.kind && bc.kind == RANGE ==>
               bc.lo == (if b.kind == RANGE then b.lo else c.lo) && bc.hi == (if b.kind == RANGE then b.hi else c.hi)
    ensures JoinedKind(ab, c) == JoinedKind(a, bc) <==> OrderFree(a, b, c)
  {
    if a.kind == SET && b.kind == SET { UnionWithin(a, b, ab, c.lo, c.hi); }
    if b.kind == SET && c.kind == SET { UnionWithin(b, c, bc, a.lo, a.hi); }
    if a.kind == SET && b.kind == RANGE && c.kind == RANGE { WithinHull(a, b, c); }
    if c.kind == SET && b.kind == RANGE && a.kind == RANGE { WithinHull(c, b, a); }
    hide Within;
  }

  lemma UnionWithin(a: ValueSet, b: ValueSet, u: ValueSet, lo: int, hi: int)
    requires u.values == a.values + b.values
    ensures Within(u, lo, hi) <==> Within(a, lo, hi) && Within(b, lo, hi)
  {
  }

  lemma WithinHull(v: ValueSet, r: ValueSet, other: ValueSet)
    ensures Within(v, r.lo, r.hi) ==> Within(v, Min(r.lo, other.lo), Max(r.hi, other.hi))
    ensures Min(r.lo, other.lo) == Min(other.lo, r.lo) && Max(r.hi, other.hi) == Max(other.hi, r.hi)
  {
  }

  /** So it depends on the order for {0}, [5, 9] and [-1, 6]. */
  lemma KindIsNotAssociative()
    ensures var s := EMPTY.(kind := SET, values := {0});
            var r1, r2 := EMPTY.(kind := RANGE, lo := 5, hi := 9), EMPTY.(kind := RANGE, lo := -1, hi := 6);
            LeftFirst(s, r1, r2).value.kind == UNREPRESENTABLE && RightFirst(s, r1, r2).value.kind == RANGE
  {
  }

  // ----- the writers of an address -----

  predicate WritesMem(op: Operand) { op.kind == MEM && op.writes }

  /** The first operand through which an instruction writes the address. */
  function FirstWritten(image: Image, insn: Insn, address: int, from: nat): Option<nat>
    decreases |insn.operands| - from
  {
    if from >= |insn.operands| then None
    else if WritesMem(insn.operands[from]) && MemoryAddress(insn, insn.operands[from], image) == Some(address) then
      Some(from)
    else FirstWritten(image, insn, address, from + 1)
  }

  /** The value stored, when the first other operand that is a register or an immediate is an
      immediate. */
  function StoredFrom(insn: Insn, rva: int, written: nat, from: nat): ValueSet
    decreases |insn.operands| - from
  {
    if from >= |insn.operands| then OfUnmodeled(rva, OtherSource)
    else if from != written && insn.operands[from].kind == IMM then OfValue(insn.operands[from].imm, rva)
    else if from != written && insn.operands[from].kind == REG then OfUnmodeled(rva, SourceRegister)
    else StoredFrom(insn, rva, written, from + 1)
  }

  function WriteOf(image: Image, insn: Insn, rva: int, address: int): Option<ValueSet> {
    match FirstWritten(image, insn, address, 0)
    case None => None
    case Some(written) =>
      if insn.mnemonic !in MOV_LIKE then Some(OfUnmodeled(rva, PreviousValueParticipates))
      else Some(StoredFrom(insn, rva, written, 0))
  }

  /** The writers among some addresses, with what each writes. */
  function WritesAmong(image: Image, rvas: seq<int>, address: int): seq<(int, ValueSet)> {
    if rvas == [] then []
    else
      var rest, rva := WritesAmong(image, rvas[..|rvas| - 1], address), rvas[|rvas| - 1];
      match InsnAt(image, rva)
      case None => rest
      case Some(insn) =>
        match WriteOf(image, insn, rva, address)
        case None => rest
        case Some(v) => rest + [(rva, v)]
  }

  function CallsAmong(sites: seq<int>): seq<(int, ValueSet)> {
    seq(|sites|, i requires 0 <= i < |sites| => (sites[i], OfUnmodeled(sites[i], UnresolvedCall)))
  }

  /** The writers of an address among decoded instructions, and the calls that may write it. */
  method WritesTo(decoder: InstructionDecoder, address: int, sites: seq<int>)
    returns (found: seq<(int, ValueSet)>, rvas: seq<int>)
    requires decoder.Valid()
    modifies decoder, decoder.sizeAt
    ensures decoder.Valid() && decoder.sizeAt[..] == old(decoder.sizeAt[..])
    ensures rvas == RecordedList(decoder.sizeAt[..], decoder.sizeAt.Length)
    ensures found == WritesAmong(decoder.image, rvas, address) + CallsAmong(sites)
  {
    hide InstructionDecoder.Valid, SizesAfter, InstructionDecoder.FailureReason, FailureOf, Keys, WriteOf, WritesAmong,
         RecordedList, CallsAmong, Recorded, InsnAt;
    rvas := decoder.DecodedRvas();
    found := [];
    NoneFound(decoder.image, address);
    assert rvas[..0] == [] && sites[..0] == [];
    for k := 0 to |rvas|
      invariant decoder.Valid() && decoder.sizeAt[..] == old(decoder.sizeAt[..])
      invariant found == WritesAmong(decoder.image, rvas[..k], address)
    {
      OneMoreWrite(decoder.image, rvas, address, k);
      ListedIsRecorded(decoder.sizeAt[..], decoder.sizeAt.Length, k);
      var insn := decoder.DecodeAgain(rvas[k]);
      if insn.Some? {
        var value := WriteOf(decoder.image, insn.value, rvas[k], address);
        if value.Some? { found := found + [(rvas[k], value.value)]; }
      }
    }
    assert rvas[..|rvas|] == rvas;
    ghost var writes := found;
    for k := 0 to |sites|
      invariant decoder.Valid() && decoder.sizeAt[..] == old(decoder.sizeAt[..])
      invariant found == writes + CallsAmong(sites[..k])
    {
      OneMoreCall(sites, k);
      found := found + [(sites[k], OfUnmodeled(sites[k], UnresolvedCall))];
    }
    assert sites[..|sites|] == sites;
  }

  lemma NoneFound(image: Image, address: int)
    ensures WritesAmong(image, [], address) == [] && CallsAmong([]) == []
  {
  }

  lemma OneMoreWrite(image: Image, rvas: seq<int>, address: int, k: nat)
    requires k < |rvas|
    ensures WritesAmong(image, rvas[..k + 1], address)
            == WritesAmong(image, rvas[..k], address)
               + match InsnAt(image, rvas[k])
                 case None => []
                 case Some(insn) =>
                   match WriteOf(image, insn, rvas[k], address) case None => [] case Some(v) => [(rvas[k], v)]
  {
    hide WriteOf, InsnAt;
    assert rvas[..k + 1][..k] == rvas[..k];
  }

  lemma OneMoreCall(sites: seq<int>, k: nat)
    requires k < |sites|
    ensures CallsAmong(sites[..k + 1])
            == CallsAmong(sites[..k]) + [(sites[k], OfUnmodeled(sites[k], UnresolvedCall))]
  {
  }

  /** The join of what the writers write, in order. */
  function JoinAll(found: seq<(int, ValueSet)>): Option<ValueSet> {
    if found == [] then Some(EMPTY)
    else match JoinAll(found[..|found| - 1])
      case None => None
      case Some(total) => Widen(total, found[|found| - 1].1)
  }

  /** Operands through which an instruction writes an address that is not known. */
  function UnresolvedIn(image: Image, insn: Insn, ops: seq<Operand>): nat {
    if ops == [] then 0
    else (if WritesMem(ops[|ops| - 1]) && MemoryAddress(insn, ops[|ops| - 1], image).None? then 1 else 0)
         + UnresolvedIn(image, insn, ops[..|ops| - 1])
  }

  function UnresolvedAmong(image: Image, rvas: seq<int>): nat {
    if rvas == [] then 0
    else UnresolvedAmong(image, rvas[..|rvas| - 1])
         + match InsnAt(image, rvas[|rvas| - 1])
           case None => 0
           case Some(insn) => UnresolvedIn(image, insn, insn.operands)
  }

  /** The count replaces whatever was counted before, and a reason is not kept. */
  function ValueOf(image: Image, rvas: seq<int>, sites: seq<int>, address: int): Option<ValueSet> {
    match JoinAll(WritesAmong(image, rvas, address) + CallsAmong(sites))
    case None => None
    case Some(total) =>
      if total.kind == NONE then Some(EMPTY.(unresolvedWrites := UnresolvedAmong(image, rvas)))
      else Some(total.(unresolvedWrites := UnresolvedAmong(image, rvas), reason := ""))
  }

  method UnresolvedWriteCount(decoder: InstructionDecoder) returns (count: nat)
    requires decoder.Valid()
    modifies decoder, decoder.sizeAt
    ensures decoder.Valid() && decoder.sizeAt[..] == old(decoder.sizeAt[..])
    ensures count == UnresolvedAmong(decoder.image, RecordedList(decoder.sizeAt[..], decoder.sizeAt.Length))
  {
    hide InstructionDecoder.Valid, SizesAfter, InstructionDecoder.FailureReason, FailureOf, Keys, MemoryAddress;
    var rvas := decoder.DecodedRvas();
    count := 0;
    for k := 0 to |rvas|
      invariant decoder.Valid() && decoder.sizeAt[..] == old(decoder.sizeAt[..])
      invariant count == UnresolvedAmong(decoder.image, rvas[..k])
    {
      assert rvas[..k + 1][..k] == rvas[..k];
      ListedIsRecorded(decoder.sizeAt[..], decoder.sizeAt.Length, k);
      var insn := decoder.DecodeAgain(rvas[k]);
      if insn.Some? {
        var more := CountUnresolved(decoder.image, insn.value);
        count := count + more;
      }
    }
    assert rvas[..|rvas|] == rvas;
  }

  method CountUnresolved(image: Image, insn: Insn) returns (count: nat)
    ensures count == UnresolvedIn(image, insn, insn.operands)
  {
    count := 0;
    for j := 0 to |insn.operands|
      invariant count == UnresolvedIn(image, insn, insn.operands[..j])
    {
      assert insn.operands[..j + 1][..j] == insn.operands[..j];
      var op := insn.operands[j];
      if op.kind == MEM && op.writes && MemoryAddress(insn, op, image).None? { count := count + 1; }
    }
    assert insn.operands[..|insn.operands|] == insn.operands;
  }

  method Join(found: seq<(int, ValueSet)>) returns (total: ValueSet)
    requires forall w :: w in found ==> WellFormed(w.1)
    ensures Some(total) == JoinAll(found)
  {
    hide Widen, WellFormed;
    total := EMPTY;
    EmptyIsWellFormed();
    for k := 0 to |found|
      invariant Some(total) == JoinAll(found[..k]) && WellFormed(total)
    {
      assert found[..k + 1][..k] == found[..k] && found[k] in found;
      WidenIsDefined(total, found[k].1);
      total := Widen(total, found[k].1).value;
    }
    assert found[..|found|] == found;
  }

  /** The join over every writer of an address, with the scope of the answer. */
  method ValueSetOf(decoder: InstructionDecoder, address: int, sites: seq<int>) returns (v: ValueSet)
    requires decoder.Valid()
    modifies decoder, decoder.sizeAt
    ensures decoder.Valid() && decoder.sizeAt[..] == old(decoder.sizeAt[..])
    ensures Some(v) == ValueOf(decoder.image, RecordedList(decoder.sizeAt[..], decoder.sizeAt.Length), sites, address)
  {
    hide InstructionDecoder.Valid, WritesAmong, UnresolvedAmong, Widen, WellFormed, JoinAll, RecordedList;
    var found, rvas := WritesTo(decoder, address, sites);
    WritersAreModelled(decoder.image, rvas, address);
    CallsAreUnmodelled(sites);
    var total := Join(found);
    var count := UnresolvedWriteCount(decoder);
    v := if total.kind == NONE then EMPTY.(unresolvedWrites := count)
         else total.(unresolvedWrites := count, reason := "");
  }

  lemma EmptyIsWellFormed()
    ensures WellFormed(EMPTY)
  {
  }

  // ----- what the writers of an address amount to -----

  predicate Modelled(v: ValueSet) { WellFormed(v) && v.kind in {SET, UNMODELED} }

  lemma {:induction false} StoredIsModelled(insn: Insn, rva: int, written: nat, from: nat)
    ensures Modelled(StoredFrom(insn, rva, written, from))
    decreases |insn.operands| - from
  {
    if from < |insn.operands| { StoredIsModelled(insn, rva, written, from + 1); }
  }

  lemma {:induction false} WritersAreModelled(image: Image, rvas: seq<int>, address: int)
    ensures forall w :: w in WritesAmong(image, rvas, address) ==> Modelled(w.1) && WellFormed(w.1)
  {
    if rvas != [] {
      WritersAreModelled(image, rvas[..|rvas| - 1], address);
      var rva := rvas[|rvas| - 1];
      if InsnAt(image, rva).Some? {
        var insn := InsnAt(image, rva).value;
        if FirstWritten(image, insn, address, 0).Some? {
          StoredIsModelled(insn, rva, FirstWritten(image, insn, address, 0).value, 0);
        }
      }
    }
  }

  lemma CallsAreUnmodelled(sites: seq<int>)
    ensures forall w :: w in CallsAmong(sites) ==> w.1.kind == UNMODELED && Modelled(w.1) && WellFormed(w.1)
  {
  }

  /** Joining modelled writers: nothing if there are none, their values if all are immediates,
      and unmodelled as soon as one is. */
  lemma {:induction false} JoinOfWriters(found: seq<(int, ValueSet)>)
    requires forall w :: w in found ==> Modelled(w.1)
    ensures JoinAll(found).Some? && WellFormed(JoinAll(found).value)
    ensures var total := JoinAll(found).value;
            && (total.kind == NONE <==> found == [])
            && (total.kind == UNMODELED <==> exists w :: w in found && w.1.kind == UNMODELED)
            && total.kind in {NONE, SET, UNMODELED}
            && (total.kind == SET ==> forall x :: x in total.values <==> exists w :: w in found && x in w.1.values)
  {
    if found == [] {
      EmptyIsWellFormed();
    } else {
      var init, last := found[..|found| - 1], found[|found| - 1];
      assert last in found && found == init + [last];
      JoinOfWriters(init);
      WidenIsDefined(JoinAll(init).value, last.1);
    }
  }

  // ----- a cell, and the runs over it -----

  /** A move has a destination first, and its source is not written. */
  ghost predicate MovesOk(image: Image) {
    forall rva :: InsnAt(image, rva).Some? && InsnAt(image, rva).value.mnemonic in MOV_LIKE ==>
      |InsnAt(image, rva).value.operands| == 2 && !WritesMem(InsnAt(image, rva).value.operands[1])
  }

  /** An instruction writes through its operands only, to whole cells. A move of an immediate
      leaves that; another write to the cell, one whose address is not known, and a call that
      goes nobody knows where, may leave anything. */
  ghost predicate CellStep(image: Image, sites: seq<int>, address: int, rva: int, before: int, after: int) {
    InsnAt(image, rva).Some? &&
    var insn := InsnAt(image, rva).value;
    if rva in sites || (exists op :: op in insn.operands && WritesMem(op) && MemoryAddress(insn, op, image).None?)
    then true
    else if exists op :: op in insn.operands && WritesMem(op) && MemoryAddress(insn, op, image) == Some(address) then
      insn.mnemonic in MOV_LIKE && |insn.operands| == 2 && insn.operands[1].kind == IMM ==>
                after == insn.operands[1].imm
    else after == before
  }

  lemma {:induction false} NoneUnresolved(image: Image, insn: Insn, ops: seq<Operand>)
    requires UnresolvedIn(image, insn, ops) == 0
    ensures forall op :: op in ops && WritesMem(op) ==> MemoryAddress(insn, op, image).Some?
  {
    if ops != [] {
      NoneUnresolved(image, insn, ops[..|ops| - 1]);
      assert ops == ops[..|ops| - 1] + [ops[|ops| - 1]];
    }
  }

  lemma {:induction false} NoneUnresolvedAmong(image: Image, rvas: seq<int>, rva: int)
    requires UnresolvedAmong(image, rvas) == 0 && rva in rvas && InsnAt(image, rva).Some?
    ensures UnresolvedIn(image, InsnAt(image, rva).value, InsnAt(image, rva).value.operands) == 0
  {
    var last := rvas[|rvas| - 1];
    assert rvas == rvas[..|rvas| - 1] + [last];
    if rva != last { NoneUnresolvedAmong(image, rvas[..|rvas| - 1], rva); }
  }

  lemma {:induction false} FirstWrittenFound(image: Image, insn: Insn, address: int, from: nat, k: nat)
    requires from <= k < |insn.operands| && WritesMem(insn.operands[k])
    requires MemoryAddress(insn, insn.operands[k], image) == Some(address)
    ensures FirstWritten(image, insn, address, from).Some?
    ensures var w := FirstWritten(image, insn, address, from).value;
            from <= w <= k && WritesMem(insn.operands[w])
    decreases k - from
  {
    if !(WritesMem(insn.operands[from]) && MemoryAddress(insn, insn.operands[from], image) == Some(address)) {
      FirstWrittenFound(image, insn, address, from + 1, k);
    }
  }

  lemma {:induction false} WriterIsListed(image: Image, rvas: seq<int>, address: int, rva: int)
    requires rva in rvas && InsnAt(image, rva).Some? && WriteOf(image, InsnAt(image, rva).value, rva, address).Some?
    ensures (rva, WriteOf(image, InsnAt(image, rva).value, rva, address).value) in WritesAmong(image, rvas, address)
  {
    hide WriteOf, InsnAt;
    var init, last := rvas[..|rvas| - 1], rvas[|rvas| - 1];
    assert rvas == init + [last];
    if rva in init { WriterIsListed(image, init, address, rva); }
  }

  /** With a decided answer, an operand that writes the address is the destination of a move of
      an immediate, which the answer admits. */
  lemma OperandAdmitted(image: Image, rvas: seq<int>, sites: seq<int>, address: int, v: ValueSet, rva: int, op: Operand)
    requires MovesOk(image) && ValueOf(image, rvas, sites, address) == Some(v) && IsDecided(v)
    requires rva in rvas && InsnAt(image, rva).Some? && op in InsnAt(image, rva).value.operands
    requires WritesMem(op) && MemoryAddress(InsnAt(image, rva).value, op, image) == Some(address)
    ensures var insn := InsnAt(image, rva).value;
            && insn.mnemonic in MOV_LIKE && |insn.operands| == 2 && op == insn.operands[0]
            && insn.operands[1].kind == IMM && Admits(v, insn.operands[1].imm)
  {
    hide MemoryAddress, InsnAt, ValueOf, Admits;
    var insn := InsnAt(image, rva).value;
    var k :| 0 <= k < |insn.operands| && insn.operands[k] == op;
    DecidedMeans(image, rvas, sites, address, v);
    FirstWrittenFound(image, insn, address, 0, k);
    var write := WriteOf(image, insn, rva, address).value;
    WriterIsListed(image, rvas, address, rva);
    assert write.kind == SET;
    StoredImmediate(insn, rva, FirstWritten(image, insn, address, 0).value);
    assert insn.operands[1].imm in write.values;
  }

  /** If the answer is decided and nothing is out of scope, an instruction that writes the
      address is a move of an immediate, which the answer admits. */
  lemma WriteAdmitted(image: Image, rvas: seq<int>, sites: seq<int>, address: int, v: ValueSet, rva: int)
    requires MovesOk(image) && ValueOf(image, rvas, sites, address) == Some(v)
    requires IsDecided(v) && v.unresolvedWrites == 0 && rva in rvas && InsnAt(image, rva).Some?
    ensures var insn := InsnAt(image, rva).value;
            && rva !in sites
            && (forall op :: op in insn.operands && WritesMem(op) ==> MemoryAddress(insn, op, image).Some?)
            && (forall op :: op in insn.operands && WritesMem(op) && MemoryAddress(insn, op, image) == Some(address) ==>
                  && insn.mnemonic in MOV_LIKE && |insn.operands| == 2 && op == insn.operands[0]
                  && insn.operands[1].kind == IMM && Admits(v, insn.operands[1].imm))
  {
    hide MemoryAddress, InsnAt, ValueOf, Admits, MovesOk, IsDecided;
    var insn := InsnAt(image, rva).value;
    DecidedMeans(image, rvas, sites, address, v);
    NoneUnresolvedAmong(image, rvas, rva);
    NoneUnresolved(image, insn, insn.operands);
    forall op | op in insn.operands && WritesMem(op) && MemoryAddress(insn, op, image) == Some(address)
      ensures insn.mnemonic in MOV_LIKE && |insn.operands| == 2 && op == insn.operands[0]
      ensures insn.operands[1].kind == IMM && Admits(v, insn.operands[1].imm)
    {
      OperandAdmitted(image, rvas, sites, address, v, rva, op);
    }
  }

  /** What one step can leave in the cell. */
  lemma CellStepAdmitted(image: Image, rvas: seq<int>, sites: seq<int>, address: int, v: ValueSet,
                         rva: int, before: int, after: int)
    requires MovesOk(image) && ValueOf(image, rvas, sites, address) == Some(v)
    requires IsDecided(v) && v.unresolvedWrites == 0
    requires rva in rvas && CellStep(image, sites, address, rva, before, after)
    ensures after == before || Admits(v, after)
  {
    WriteAdmitted(image, rvas, sites, address, v, rva);
    hide ValueOf, MovesOk, Admits, MemoryAddress, InsnAt;
  }

  lemma StoredImmediate(insn: Insn, rva: int, written: nat)
    requires |insn.operands| == 2 && written == 0 && insn.operands[0].kind == MEM
    requires StoredFrom(insn, rva, written, 0).kind == SET
    ensures insn.operands[1].kind == IMM && StoredFrom(insn, rva, written, 0).values == {insn.operands[1].imm}
  {
    assert StoredFrom(insn, rva, written, 0) == StoredFrom(insn, rva, written, 1);
    assert StoredFrom(insn, rva, written, 2).kind == UNMODELED;
  }

  /** A decided answer: no unresolved calls, every writer an immediate, all of them in the set. */
  lemma DecidedMeans(image: Image, rvas: seq<int>, sites: seq<int>, address: int, v: ValueSet)
    requires ValueOf(image, rvas, sites, address) == Some(v) && IsDecided(v)
    ensures sites == []
    ensures forall w :: w in WritesAmong(image, rvas, address) ==>
              w.1.kind == SET && forall x :: x in w.1.values ==> Admits(v, x)
    ensures v.unresolvedWrites == UnresolvedAmong(image, rvas)
  {
    hide WritesAmong, UnresolvedAmong, WellFormed;
    var found := WritesAmong(image, rvas, address) + CallsAmong(sites);
    WritersAreModelled(image, rvas, address);
    CallsAreUnmodelled(sites);
    forall w | w in WritesAmong(image, rvas, address) ensures w in found { }
    assert sites != [] ==> CallsAmong(sites)[0] in found && CallsAmong(sites)[0].1.kind == UNMODELED;
    JoinOfWriters(found);
  }

  /** In every run over the decoded instructions the cell holds what it held at first, or a
      member of the set. */
  lemma {:induction false} CellHoldsMember(image: Image, rvas: seq<int>, sites: seq<int>, address: int, v: ValueSet,
                                           run: seq<int>, cells: seq<int>)
    requires MovesOk(image) && ValueOf(image, rvas, sites, address) == Some(v)
    requires IsDecided(v) && v.unresolvedWrites == 0
    requires |cells| == |run| + 1
    requires forall i :: 0 <= i < |run| ==>
              run[i] in rvas && CellStep(image, sites, address, run[i], cells[i], cells[i + 1])
    ensures forall i :: 0 <= i < |cells| ==> cells[i] == cells[0] || Admits(v, cells[i])
    decreases |run|
  {
    hide CellStep, ValueOf, MovesOk, Admits;
    if run != [] {
      var n := |run| - 1;
      CellHoldsMember(image, rvas, sites, address, v, run[..n], cells[..n + 1]);
      CellStepAdmitted(image, rvas, sites, address, v, run[n], cells[n], cells[n + 1]);
      assert cells[n] == cells[..n + 1][n];
    }
  }

  // ----- the answer, said of the instructions -----

  /** An operand through which an instruction writes the address. */
  predicate WritesAt(insn: Insn, op: Operand, image: Image, address: int) {
    op.kind == MEM && op.writes && Refers(insn, op, image, (address, MEMORY))
  }

  ghost predicate IsWriter(image: Image, rva: int, address: int) {
    InsnAt(image, rva).Some?
    && exists op :: op in InsnAt(image, rva).value.operands && WritesAt(InsnAt(image, rva).value, op, image, address)
  }

  ghost predicate FirstAt(insn: Insn, image: Image, address: int, w: nat) {
    w < |insn.operands| && WritesAt(insn, insn.operands[w], image, address)
    && forall j :: 0 <= j < w ==> !WritesAt(insn, insn.operands[j], image, address)
  }

  /** The immediate `x` is the first other operand that is a register or an immediate. */
  ghost predicate SourceIs(insn: Insn, w: nat, from: nat, x: int) {
    exists k :: from <= k < |insn.operands| && k != w && insn.operands[k].kind == IMM && insn.operands[k].imm == x
                && forall j :: from <= j < k && j != w ==> insn.operands[j].kind == MEM
  }

  /** A writer that moves an immediate. */
  ghost predicate Stores(image: Image, rva: int, address: int, x: int) {
    InsnAt(image, rva).Some? &&
    var insn := InsnAt(image, rva).value;
    && (insn.mnemonic == "mov" || insn.mnemonic == "movabs")
    && exists w: nat :: FirstAt(insn, image, address, w) && SourceIs(insn, w, 0, x)
  }

  lemma {:induction false} FirstWrittenIsFirst(image: Image, insn: Insn, address: int, from: nat, w: nat)
    requires from <= |insn.operands|
    ensures FirstWritten(image, insn, address, from) == Some(w) <==>
            from <= w < |insn.operands| && WritesAt(insn, insn.operands[w], image, address)
            && forall j :: from <= j < w ==> !WritesAt(insn, insn.operands[j], image, address)
    decreases |insn.operands| - from
  {
    hide MemoryAddress, Refers;
    if from < |insn.operands| {
      AddressRefers(insn, insn.operands[from], image, address);
      FirstWrittenIsFirst(image, insn, address, from + 1, w);
    }
  }

  lemma {:induction false} StoredIsSource(insn: Insn, rva: int, w: nat, from: nat, x: int)
    ensures var v := StoredFrom(insn, rva, w, from);
            && v.kind in {SET, UNMODELED}
            && (v.kind == SET ==> exists y :: v.values == {y} && SourceIs(insn, w, from, y))
            && (SourceIs(insn, w, from, x) ==> v.kind == SET && v.values == {x})
    decreases |insn.operands| - from
  {
    if from < |insn.operands| {
      StoredIsSource(insn, rva, w, from + 1, x);
      var v := StoredFrom(insn, rva, w, from);
      if v.kind == SET {
        if from != w && insn.operands[from].kind == IMM {
          assert SourceIs(insn, w, from, insn.operands[from].imm);
        } else {
          var y :| v.values == {y} && SourceIs(insn, w, from + 1, y);
          assert SourceIs(insn, w, from, y);
        }
      }
      if SourceIs(insn, w, from, x) {
        var k :| from <= k < |insn.operands| && k != w && insn.operands[k].kind == IMM && insn.operands[k].imm == x
                 && forall j :: from <= j < k && j != w ==> insn.operands[j].kind == MEM;
        if k > from { assert SourceIs(insn, w, from + 1, x); }
      }
    }
  }

  /** What one instruction contributes. */
  lemma WriteIsExact(image: Image, rva: int, address: int, x: int)
    requires InsnAt(image, rva).Some?
    ensures var v := WriteOf(image, InsnAt(image, rva).value, rva, address);
            && (v.Some? <==> IsWriter(image, rva, address))
            && (v.Some? ==> v.value.kind in {SET, UNMODELED})
            && (v.Some? && v.value.kind == SET ==> exists y :: v.value.values == {y} && Stores(image, rva, address, y))
            && (Stores(image, rva, address, x) ==> v.Some? && v.value.kind == SET && v.value.values == {x})
  {
    hide InsnAt, FirstWritten, StoredFrom, WritesAt, SourceIs;
    var insn := InsnAt(image, rva).value;
    forall w: nat ensures FirstWritten(image, insn, address, 0) == Some(w) <==> FirstAt(insn, image, address, w) {
      FirstWrittenIsFirst(image, insn, address, 0, w);
    }
    if IsWriter(image, rva, address) {
      var k :| 0 <= k < |insn.operands| && WritesAt(insn, insn.operands[k], image, address);
      var w := FirstOf(insn, image, address, k);
    }
    if FirstWritten(image, insn, address, 0).Some? {
      StoredIsSource(insn, rva, FirstWritten(image, insn, address, 0).value, 0, x);
    }
  }

  lemma {:induction false} FirstOf(insn: Insn, image: Image, address: int, k: nat) returns (w: nat)
    requires k < |insn.operands| && WritesAt(insn, insn.operands[k], image, address)
    ensures FirstAt(insn, image, address, w)
    decreases k
  {
    hide WritesAt;
    w := k;
    if j :| 0 <= j < k && WritesAt(insn, insn.operands[j], image, address) { w := FirstOf(insn, image, address, j); }
  }

  ghost predicate FoundAt(image: Image, rvas: seq<int>, address: int, w: (int, ValueSet)) {
    w.0 in rvas && InsnAt(image, w.0).Some? && WriteOf(image, InsnAt(image, w.0).value, w.0, address) == Some(w.1)
  }

  lemma {:induction false} WritesAmongAre(image: Image, rvas: seq<int>, address: int, w: (int, ValueSet))
    ensures w in WritesAmong(image, rvas, address) <==> FoundAt(image, rvas, address, w)
  {
    hide WriteOf, InsnAt;
    if rvas != [] {
      WritesAmongAre(image, rvas[..|rvas| - 1], address, w);
      assert rvas == rvas[..|rvas| - 1] + [rvas[|rvas| - 1]];
    }
  }

  ghost predicate Unmodelled(image: Image, rva: int, address: int) {
    IsWriter(image, rva, address) && forall x :: !Stores(image, rva, address, x)
  }

  ghost predicate HeldAmong(writes: seq<(int, ValueSet)>, x: int) {
    exists w :: w in writes && w.1.kind == SET && x in w.1.values
  }

  ghost predicate StoredAmong(image: Image, rvas: seq<int>, address: int, x: int) {
    exists rva :: rva in rvas && Stores(image, rva, address, x)
  }

  lemma WritesMatch(image: Image, rvas: seq<int>, address: int)
    ensures forall w :: w in WritesAmong(image, rvas, address) ==> w.0 in rvas
    ensures forall w, x :: w in WritesAmong(image, rvas, address) ==> MatchesWriter(image, w, address, x)
    ensures forall rva :: rva in rvas && IsWriter(image, rva, address) ==>
              exists w :: w in WritesAmong(image, rvas, address) && w.0 == rva
  {
    hide InsnAt, WriteOf, WritesAmong, IsWriter, Stores;
    var writes := WritesAmong(image, rvas, address);
    forall rva | rva in rvas && IsWriter(image, rva, address) ensures exists w :: w in writes && w.0 == rva {
      WriterHasInsn(image, rva, address, 0);
      WriteIsExact(image, rva, address, 0);
      var w := (rva, WriteOf(image, InsnAt(image, rva).value, rva, address).value);
      WritesAmongAre(image, rvas, address, w);
      assert w in writes && w.0 == rva;
    }
    forall w | w in writes ensures w.0 in rvas { WritesAmongAre(image, rvas, address, w); }
    forall w, x | w in writes ensures MatchesWriter(image, w, address, x) {
      WritesAmongAre(image, rvas, address, w);
      WriteIsExact(image, w.0, address, x);
    }
  }

  /** The writers that are found, as a whole. */
  lemma WritersAreExact(image: Image, rvas: seq<int>, address: int)
    ensures var writes := WritesAmong(image, rvas, address);
            && (writes == [] <==> forall rva :: rva in rvas ==> !IsWriter(image, rva, address))
            && ((exists w :: w in writes && w.1.kind == UNMODELED) <==>
                  exists rva :: rva in rvas && Unmodelled(image, rva, address))
    ensures forall x :: HeldAmong(WritesAmong(image, rvas, address), x) <==> StoredAmong(image, rvas, address, x)
  {
    hide InsnAt, WriteOf, WritesAmong, IsWriter, Stores;
    var writes := WritesAmong(image, rvas, address);
    WritesMatch(image, rvas, address);
    if writes != [] { assert writes[0] in writes && MatchesWriter(image, writes[0], address, 0); }
    if w :| w in writes && w.1.kind == UNMODELED {
      forall x ensures !Stores(image, w.0, address, x) { assert MatchesWriter(image, w, address, x); }
      assert MatchesWriter(image, w, address, 0);
      assert Unmodelled(image, w.0, address);
    }
    if rva :| rva in rvas && Unmodelled(image, rva, address) {
      var w :| w in writes && w.0 == rva;
      assert MatchesWriter(image, w, address, 0);
    }
    forall x ensures HeldAmong(writes, x) <==> StoredAmong(image, rvas, address, x) {
      if w :| w in writes && w.1.kind == SET && x in w.1.values { assert MatchesWriter(image, w, address, x); }
      if rva :| rva in rvas && Stores(image, rva, address, x) {
        WriterHasInsn(image, rva, address, x);
        var w :| w in writes && w.0 == rva;
        assert MatchesWriter(image, w, address, x);
      }
    }
  }

  lemma WriterHasInsn(image: Image, rva: int, address: int, x: int)
    ensures IsWriter(image, rva, address) ==> InsnAt(image, rva).Some?
    ensures Stores(image, rva, address, x) ==> IsWriter(image, rva, address)
  {
    hide InsnAt, WritesAt, SourceIs;
  }

  ghost predicate MatchesWriter(image: Image, w: (int, ValueSet), address: int, x: int) {
    && IsWriter(image, w.0, address) && w.1.kind in {SET, UNMODELED}
    && (w.1.kind == SET ==> exists y :: w.1.values == {y} && Stores(image, w.0, address, y))
    && (Stores(image, w.0, address, x) ==> w.1.kind == SET && w.1.values == {x})
  }

  // ----- the count of writes out of scope -----

  /** A written operand whose address is not all in the encoding, or not in the image. */
  ghost predicate IsOpen(insn: Insn, op: Operand, image: Image) {
    op.kind == MEM && op.writes && forall a :: !Refers(insn, op, image, (a, MEMORY))
  }

  function OperandCount(image: Image, rva: int): nat {
    if InsnAt(image, rva).Some? then |InsnAt(image, rva).value.operands| else 0
  }

  ghost predicate OpenAt(image: Image, rva: int, j: int) {
    0 <= j < OperandCount(image, rva) && IsOpen(InsnAt(image, rva).value, InsnAt(image, rva).value.operands[j], image)
  }

  /** The operands, by position, through which the instructions write addresses that are not known. */
  ghost function OpenWrites(image: Image, rvas: seq<int>): set<(int, int)> {
    set i, j | 0 <= i < |rvas| && 0 <= j < OperandCount(image, rvas[i]) && OpenAt(image, rvas[i], j) :: (i, j)
  }

  ghost function OpenOperands(image: Image, rva: int, n: nat, i: int): set<(int, int)> {
    set j | 0 <= j < n && OpenAt(image, rva, j) :: (i, j)
  }

  lemma OpenMeans(insn: Insn, op: Operand, image: Image)
    ensures IsOpen(insn, op, image) <==> WritesMem(op) && MemoryAddress(insn, op, image).None?
  {
    hide MemoryAddress, Refers;
    if MemoryAddress(insn, op, image).Some? {
      AddressRefers(insn, op, image, MemoryAddress(insn, op, image).value);
      assert exists a :: Refers(insn, op, image, (a, MEMORY));
    } else {
      forall a ensures !Refers(insn, op, image, (a, MEMORY)) { AddressRefers(insn, op, image, a); }
    }
  }

  lemma NoOpenWrites(image: Image)
    ensures OpenWrites(image, []) == {}
  {
  }

  lemma NoOpenOperands(image: Image, rva: int, i: int)
    ensures OpenOperands(image, rva, 0, i) == {}
  {
  }

  lemma OneMoreOperand(image: Image, rva: int, n: nat, i: int)
    ensures OpenOperands(image, rva, n + 1, i) ==
            OpenOperands(image, rva, n, i) + if OpenAt(image, rva, n) then {(i, n as int)} else {}
    ensures (i, n) !in OpenOperands(image, rva, n, i)
  {
    hide OpenAt;
  }

  lemma {:induction false} OpenOperandsCounted(image: Image, rva: int, n: nat, i: int)
    requires InsnAt(image, rva).Some? && n <= |InsnAt(image, rva).value.operands|
    ensures var insn := InsnAt(image, rva).value;
            UnresolvedIn(image, insn, insn.operands[..n]) == |OpenOperands(image, rva, n, i)|
  {
    hide IsOpen, InsnAt, MemoryAddress, OpenOperands;
    if n == 0 {
      NoOpenOperands(image, rva, i);
    } else {
      var insn := InsnAt(image, rva).value;
      OpenOperandsCounted(image, rva, n - 1, i);
      OpenMeans(insn, insn.operands[n - 1], image);
      OneMoreOperand(image, rva, n - 1, i);
      assert insn.operands[..n][..n - 1] == insn.operands[..n - 1];
    }
  }

  lemma OpenWritesSplit(image: Image, rvas: seq<int>, n: nat)
    requires |rvas| == n + 1
    ensures var more := OpenOperands(image, rvas[n], OperandCount(image, rvas[n]), n);
            OpenWrites(image, rvas) == OpenWrites(image, rvas[..n]) + more && OpenWrites(image, rvas[..n]) !! more
  {
    hide OpenAt, OperandCount;
  }

  /** The count is the number of operands through which a decoded instruction writes an address
      that is not known. */
  lemma {:induction false} CountIsExact(image: Image, rvas: seq<int>)
    ensures UnresolvedAmong(image, rvas) == |OpenWrites(image, rvas)|
    decreases |rvas|
  {
    hide OpenAt, InsnAt, UnresolvedIn, OpenWrites, OpenOperands;
    if rvas == [] {
      assert OpenWrites(image, rvas) == {} by { NoOpenWrites(image); }
    } else {
      var n := |rvas| - 1;
      CountIsExact(image, rvas[..n]);
      OpenWritesSplit(image, rvas, n);
      if InsnAt(image, rvas[n]).Some? {
        var ops := InsnAt(image, rvas[n]).value.operands;
        OpenOperandsCounted(image, rvas[n], |ops|, n);
        assert ops[..|ops|] == ops;
      } else {
        assert OpenOperands(image, rvas[n], 0, n) == {} by { NoOpenOperands(image, rvas[n], n); }
      }
    }
  }

  // ----- the evidence -----

  /** Why a writer counts as it does: the first other operand that is not memory decides. */
  ghost predicate NoteFrom(insn: Insn, w: nat, from: nat, note: Note) {
    match note
    case StoresImmediate(x) => SourceIs(insn, w, from, x)
    case SourceRegister =>
      exists k :: from <= k < |insn.operands| && k != w && insn.operands[k].kind == REG
                  && forall j :: from <= j < k && j != w ==> insn.operands[j].kind == MEM
    case OtherSource => forall j :: from <= j < |insn.operands| && j != w ==> insn.operands[j].kind == MEM
    case _ => false
  }

  ghost predicate NoteIs(image: Image, address: int, e: Evidence) {
    IsWriter(image, e.rva, address) &&
    var insn := InsnAt(image, e.rva).value;
    if insn.mnemonic == "mov" || insn.mnemonic == "movabs"
    then exists w: nat :: FirstAt(insn, image, address, w) && NoteFrom(insn, w, 0, e.note)
    else e.note == PreviousValueParticipates
  }

  predicate Splits(v: ValueSet, e: Evidence, noted: bool) {
    && (e in v.writers <==> noted && e.note.StoresImmediate?)
    && (e in v.unmodeled <==> noted && !e.note.StoresImmediate?)
  }

  lemma {:induction false} StoredNoted(insn: Insn, rva: int, w: nat, from: nat, e: Evidence)
    requires from <= |insn.operands|
    ensures Splits(StoredFrom(insn, rva, w, from), e, e.rva == rva && NoteFrom(insn, w, from, e.note))
    decreases |insn.operands| - from
  {
    if from < |insn.operands| {
      StoredNoted(insn, rva, w, from + 1, e);
      NoteStep(insn, w, from, e.note);
    }
  }

  lemma NoteStep(insn: Insn, w: nat, from: nat, note: Note)
    requires from < |insn.operands|
    ensures NoteFrom(insn, w, from, note) <==>
            if from == w || insn.operands[from].kind == MEM then NoteFrom(insn, w, from + 1, note)
            else if insn.operands[from].kind == IMM then note == StoresImmediate(insn.operands[from].imm)
            else note == SourceRegister
  {
    var ops := insn.operands;
    if from != w && ops[from].kind == IMM {
      assert SourceIs(insn, w, from, ops[from].imm);
    }
  }

  lemma WriteNoted(image: Image, rva: int, address: int, e: Evidence)
    requires InsnAt(image, rva).Some?
    ensures var v := WriteOf(image, InsnAt(image, rva).value, rva, address);
            && (v.None? && e.rva == rva ==> !NoteIs(image, address, e))
            && (v.Some? ==> Splits(v.value, e, e.rva == rva && NoteIs(image, address, e)))
  {
    hide InsnAt, FirstWritten, StoredFrom, WritesAt, NoteFrom;
    var insn := InsnAt(image, rva).value;
    WriteIsExact(image, rva, address, 0);
    forall w: nat ensures FirstWritten(image, insn, address, 0) == Some(w) <==> FirstAt(insn, image, address, w) {
      FirstWrittenIsFirst(image, insn, address, 0, w);
    }
    if FirstWritten(image, insn, address, 0).Some? {
      StoredNoted(insn, rva, FirstWritten(image, insn, address, 0).value, 0, e);
    }
  }

  /** A join names what its members name. */
  lemma {:induction false} JoinNames(found: seq<(int, ValueSet)>, e: Evidence)
    requires forall w :: w in found ==> Modelled(w.1)
    ensures JoinAll(found).Some?
    ensures e in JoinAll(found).value.writers <==> exists w :: w in found && e in w.1.writers
    ensures e in JoinAll(found).value.unmodeled <==> exists w :: w in found && e in w.1.unmodeled
  {
    hide Widen, WellFormed, Modelled;
    JoinOfWriters(found);
    if found != [] {
      var init, last := found[..|found| - 1], found[|found| - 1];
      assert last in found && found == init + [last];
      JoinNames(init, e);
      JoinOfWriters(init);
      ModelledIsWellFormed(last.1);
      WidenIsDefined(JoinAll(init).value, last.1);
    }
  }

  lemma ModelledIsWellFormed(v: ValueSet)
    requires Modelled(v)
    ensures WellFormed(v)
  {
  }

  /** The evidence of an answer: each writer that moves an immediate, with it; each other writer, with
      why it is not modelled; each call that might write; and nothing else. */
  lemma EvidenceIsExact(image: Image, rvas: seq<int>, sites: seq<int>, address: int, e: Evidence)
    ensures ValueOf(image, rvas, sites, address).Some?
    ensures var v := ValueOf(image, rvas, sites, address).value;
            && (e in v.writers <==> e.rva in rvas && e.note.StoresImmediate? && NoteIs(image, address, e))
            && (e in v.unmodeled <==>
                  || (e.rva in sites && e.note == UnresolvedCall)
                  || (e.rva in rvas && !e.note.StoresImmediate? && NoteIs(image, address, e)))
  {
    hide WritesAmong, WellFormed, Modelled, Widen, NoteIs, UnresolvedAmong, WriteOf, InsnAt;
    var writes, calls := WritesAmong(image, rvas, address), CallsAmong(sites);
    var found := writes + calls;
    WritersAreModelled(image, rvas, address);
    CallsAreUnmodelled(sites);
    JoinNames(found, e);
    JoinOfWriters(found);
    assert forall w :: w in found <==> w in writes || w in calls;
    forall w | w in writes ensures w.0 in rvas && Splits(w.1, e, e.rva == w.0 && NoteIs(image, address, e)) {
      WritesAmongAre(image, rvas, address, w);
      WriteNoted(image, w.0, address, e);
    }
    if e.rva in rvas && NoteIs(image, address, e) {
      assert IsWriter(image, e.rva, address) by { NotedWrites(image, address, e); }
      WritesMatch(image, rvas, address);
      var w :| w in writes && w.0 == e.rva;
      assert w in found;
    }
    if e.rva in sites && e.note == UnresolvedCall {
      var k :| 0 <= k < |sites| && sites[k] == e.rva;
      assert calls[k] in found && e in calls[k].1.unmodeled;
    }
  }

  lemma NotedWrites(image: Image, address: int, e: Evidence)
    requires NoteIs(image, address, e)
    ensures IsWriter(image, e.rva, address)
  {
  }

  // ----- the answer as a whole -----

  /** There is always an answer, and it has the count of open writes. It is empty exactly if
      nothing writes the address and no call might; unmodelled exactly if some call might, or some
      writer is anything but a move of an immediate; and otherwise the set of exactly the
      immediates that are moved there. */
  lemma AnswerIsExact(image: Image, rvas: seq<int>, sites: seq<int>, address: int)
    ensures ValueOf(image, rvas, sites, address).Some?
    ensures var v := ValueOf(image, rvas, sites, address).value;
            && (v.kind == NONE <==> sites == [] && forall rva :: rva in rvas ==> !IsWriter(image, rva, address))
            && (v.kind == UNMODELED <==> sites != [] || exists rva :: rva in rvas && Unmodelled(image, rva, address))
            && v.kind in {NONE, SET, UNMODELED} && v.unresolvedWrites == |OpenWrites(image, rvas)|
            && (v.kind == SET ==>
                  forall x :: x in v.values <==> StoredAmong(image, rvas, address, x))
  {
    hide WritesAmong, WellFormed, Widen, IsWriter, Stores, Unmodelled, UnresolvedAmong, OpenWrites;
    CountIsExact(image, rvas);
    var writes, calls := WritesAmong(image, rvas, address), CallsAmong(sites);
    var found := writes + calls;
    WritersAreModelled(image, rvas, address);
    CallsAreUnmodelled(sites);
    WritersAreExact(image, rvas, address);
    JoinOfWriters(found);
    assert forall w :: w in found <==> w in writes || w in calls;
    assert sites != [] ==> calls[0] in found && calls[0].1.kind == UNMODELED;
    var total := JoinAll(found).value;
    if total.kind == SET {
      forall w | w in found ensures w.1.kind == SET { assert Modelled(w.1); }
    }
  }

  // ----- bytes -----

  /** The bytes of the image in memory, by RVA. */
  type Bytes = int -> int

  /** The little-endian word of some bytes. */
  function WordAt(mem: Bytes, a: int, width: nat): int
    decreases width
  {
    if width == 0 then 0 else mem(a) + 256 * WordAt(mem, a + 1, width - 1)
  }

  /** Whether an operand through which an instruction writes takes in a byte. */
  predicate Hits(image: Image, insn: Insn, op: Operand, x: int) {
    WritesMem(op) && MemoryAddress(insn, op, image).Some?
    && MemoryAddress(insn, op, image).value <= x < MemoryAddress(insn, op, image).value + op.size
  }

  /** The same instructions over bytes: a write changes the bytes of its operand, and a move of
      an immediate leaves the immediate there, cut to the operand's width. */
  ghost predicate BytesStep(image: Image, sites: seq<int>, rva: int, mem: Bytes, mem': Bytes) {
    InsnAt(image, rva).Some? &&
    var insn := InsnAt(image, rva).value;
    if rva in sites || (exists op :: op in insn.operands && WritesMem(op) && MemoryAddress(insn, op, image).None?)
    then true
    else
      && (forall x :: (forall op :: op in insn.operands ==> !Hits(image, insn, op, x)) ==> mem'(x) == mem(x))
      && (forall op :: op in insn.operands && WritesMem(op) ==> MovedIn(image, insn, op, mem'))
  }

  ghost predicate MovedIn(image: Image, insn: Insn, op: Operand, mem: Bytes) {
    insn.mnemonic in MOV_LIKE && |insn.operands| == 2 && insn.operands[1].kind == IMM
    && MemoryAddress(insn, op, image).Some? ==>
      WordAt(mem, MemoryAddress(insn, op, image).value, op.size) == insn.operands[1].imm % Power256(op.size)
  }

  /** A write to the cell is as wide as the cell, and one anywhere else does not reach into it. */
  predicate KeepsApart(image: Image, insn: Insn, op: Operand, address: int, width: nat) {
    WritesMem(op) && MemoryAddress(insn, op, image).Some? ==>
      var a := MemoryAddress(insn, op, image).value;
      if a == address then op.size == width else a + op.size <= address || address + width <= a
  }

  ghost predicate Undisturbed(image: Image, rvas: seq<int>, address: int, width: nat) {
    forall rva :: rva in rvas && InsnAt(image, rva).Some? ==>
      forall op :: op in InsnAt(image, rva).value.operands ==>
        KeepsApart(image, InsnAt(image, rva).value, op, address, width)
  }

  lemma {:induction false} SameWord(mem: Bytes, mem': Bytes, a: int, width: nat)
    requires forall x :: a <= x < a + width ==> mem'(x) == mem(x)
    ensures WordAt(mem', a, width) == WordAt(mem, a, width)
    decreases width
  {
    if width > 0 { SameWord(mem, mem', a + 1, width - 1); }
  }

  ghost predicate AdmitsWord(v: ValueSet, word: int, width: nat) {
    exists x :: Admits(v, x) && word == x % Power256(width)
  }

  lemma BytesStepAdmitted(image: Image, rvas: seq<int>, sites: seq<int>, address: int, width: nat, v: ValueSet,
                          rva: int, mem: Bytes, mem': Bytes)
    requires MovesOk(image) && ValueOf(image, rvas, sites, address) == Some(v)
    requires IsDecided(v) && v.unresolvedWrites == 0 && Undisturbed(image, rvas, address, width)
    requires rva in rvas && BytesStep(image, sites, rva, mem, mem')
    ensures WordAt(mem', address, width) == WordAt(mem, address, width)
            || AdmitsWord(v, WordAt(mem', address, width), width)
  {
    WriteAdmitted(image, rvas, sites, address, v, rva);
    hide ValueOf, MovesOk, Admits, MemoryAddress, InsnAt, WordAt;
    var insn := InsnAt(image, rva).value;
    if op :| op in insn.operands && WritesMem(op) && MemoryAddress(insn, op, image) == Some(address) {
      assert KeepsApart(image, insn, op, address, width) && MovedIn(image, insn, op, mem');
    } else {
      forall x | address <= x < address + width ensures mem'(x) == mem(x) {
        forall op | op in insn.operands ensures !Hits(image, insn, op, x) {
          assert KeepsApart(image, insn, op, address, width);
        }
      }
      SameWord(mem, mem', address, width);
    }
  }

  /** Over bytes: in every run over the decoded instructions the word of the cell is what it was
      at first or a member of the set, as long as writes to the cell are as wide as the cell and
      no decoded write at another address reaches into it. */
  lemma {:induction false} WordHoldsMember(image: Image, rvas: seq<int>, sites: seq<int>, address: int, width: nat,
                                           v: ValueSet, run: seq<int>, mems: seq<Bytes>)
    requires MovesOk(image) && ValueOf(image, rvas, sites, address) == Some(v)
    requires IsDecided(v) && v.unresolvedWrites == 0 && Undisturbed(image, rvas, address, width)
    requires |mems| == |run| + 1
    requires forall i :: 0 <= i < |run| ==> run[i] in rvas && BytesStep(image, sites, run[i], mems[i], mems[i + 1])
    ensures forall i :: 0 <= i < |mems| ==>
              WordAt(mems[i], address, width) == WordAt(mems[0], address, width)
              || AdmitsWord(v, WordAt(mems[i], address, width), width)
    decreases |run|
  {
    hide BytesStep, ValueOf, MovesOk, AdmitsWord, Undisturbed, WordAt;
    if run != [] {
      var n := |run| - 1;
      WordHoldsMember(image, rvas, sites, address, width, v, run[..n], mems[..n + 1]);
      BytesStepAdmitted(image, rvas, sites, address, width, v, run[n], mems[n], mems[n + 1]);
      assert mems[n] == mems[..n + 1][n];
    }
  }

  /** `mov byte [0x21], 7` is not listed for the word at 0x20, which no instruction is said to
      write, and changes it. */
  lemma OverlappingWriteIsMissed()
    ensures var op := Operand(MEM, 1, 0, 0, 0, 0, 0, 1, 0x21, true);
            var mov := Insn(0, 7, "mov", [op, Operand(IMM, 1, 0, 7, 0, 0, 0, 1, 0, false)], false, false, false, false);
            var image := Image(0, 4, [Section(0, 0x100, 0, true)], rva => if rva == 0 then Decoded(mov) else NoBytes,
                               _ => None, _ => None);
            var mem, mem': Bytes := _ => 0, x => if x == 0x21 then 7 else 0;
            && ValueOf(image, [0], [], 0x20) == Some(EMPTY) && !Undisturbed(image, [0], 0x20, 2)
            && BytesStep(image, [], 0, mem, mem')
            && WordAt(mem, 0x20, 2) == 0 && WordAt(mem', 0x20, 2) == 0x700
  {
    hide InsnAt, MemoryAddress, ValueOf, Undisturbed, BytesStep, WordAt;
    var op := Operand(MEM, 1, 0, 0, 0, 0, 0, 1, 0x21, true);
    var mov := Insn(0, 7, "mov", [op, Operand(IMM, 1, 0, 7, 0, 0, 0, 1, 0, false)], false, false, false, false);
    var image := Image(0, 4, [Section(0, 0x100, 0, true)], rva => if rva == 0 then Decoded(mov) else NoBytes,
                       _ => None, _ => None);
    var mem, mem': Bytes := _ => 0, x => if x == 0x21 then 7 else 0;
    DecodedInOneSection(image, 0, mov);
    AbsoluteInOneSection(image, mov, op);
    OneByteMoved(image, mov, op, mem, mem');
    NothingWritten(image, mov, 0x20);
    ReachesIn(image, mov, op, 0x20, 2);
    LowWord(mem, 0x20);
    LowWord(mem', 0x20);
  }

  lemma DecodedInOneSection(image: Image, rva: int, insn: Insn)
    requires image.sections == [Section(0, 0x100, 0, true)] && 0 <= rva < 0x100 && image.code(rva) == Decoded(insn)
    ensures InsnAt(image, rva) == Some(insn)
  {
    assert InSection(image.sections[0], rva);
  }

  lemma AbsoluteInOneSection(image: Image, insn: Insn, op: Operand)
    requires image.base == 0 && image.sections == [Section(0, 0x100, 0, true)]
    requires IsAbsoluteMem(op) && 0 < op.disp < 0x100
    ensures MemoryAddress(insn, op, image) == Some(op.disp)
  {
    assert image.sections[1..] == [] && SpanOf(image.sections) == SectionEnd(image.sections[0]);
  }

  lemma LowWord(mem: Bytes, a: int)
    ensures WordAt(mem, a, 2) == mem(a) + 256 * mem(a + 1)
  {
    assert WordAt(mem, a + 1, 1) == mem(a + 1) + 256 * WordAt(mem, a + 2, 0);
  }

  lemma ReachesIn(image: Image, insn: Insn, op: Operand, address: int, width: nat)
    requires InsnAt(image, 0) == Some(insn) && op in insn.operands && !KeepsApart(image, insn, op, address, width)
    ensures !Undisturbed(image, [0], address, width)
  {
    hide KeepsApart, InsnAt;
    assert 0 in [0];
  }

  lemma OneByteMoved(image: Image, mov: Insn, op: Operand, mem: Bytes, mem': Bytes)
    requires InsnAt(image, 0) == Some(mov) && MemoryAddress(mov, op, image) == Some(0x21)
    requires op.size == 1 && WritesMem(op) && |mov.operands| == 2 && mov.operands[0] == op
    requires mov.operands[1].imm == 7 && !WritesMem(mov.operands[1])
    requires mem'(0x21) == 7 && forall x :: x != 0x21 ==> mem'(x) == mem(x)
    ensures BytesStep(image, [], 0, mem, mem')
  {
    hide InsnAt, MemoryAddress;
    assert WordAt(mem', 0x21, 1) == mem'(0x21) + 256 * WordAt(mem', 0x22, 0);
    assert Power256(1) == 256 * Power256(0) == 256;
    assert op in mov.operands && Hits(image, mov, op, 0x21);
  }

  lemma {:induction false} NoneIsWritten(image: Image, insn: Insn, address: int, from: nat)
    requires from <= |insn.operands|
    requires forall op :: op in insn.operands && WritesMem(op) ==> MemoryAddress(insn, op, image) != Some(address)
    ensures FirstWritten(image, insn, address, from) == None
    decreases |insn.operands| - from
  {
    hide MemoryAddress;
    if from < |insn.operands| { NoneIsWritten(image, insn, address, from + 1); }
  }

  lemma {:induction false} AllResolved(image: Image, insn: Insn, ops: seq<Operand>)
    requires forall op :: op in ops && WritesMem(op) ==> MemoryAddress(insn, op, image).Some?
    ensures UnresolvedIn(image, insn, ops) == 0
  {
    hide MemoryAddress;
    if ops != [] {
      assert ops == ops[..|ops| - 1] + [ops[|ops| - 1]];
      AllResolved(image, insn, ops[..|ops| - 1]);
    }
  }

  /** No operand names the address, and every written one is known. */
  lemma NothingWritten(image: Image, insn: Insn, address: int)
    requires InsnAt(image, 0) == Some(insn)
    requires forall op :: op in insn.operands && WritesMem(op) ==>
               MemoryAddress(insn, op, image).Some? && MemoryAddress(insn, op, image).value != address
    ensures ValueOf(image, [0], [], address) == Some(EMPTY)
  {
    hide MemoryAddress, InsnAt, FirstWritten, UnresolvedIn;
    NoneIsWritten(image, insn, address, 0);
    AllResolved(image, insn, insn.operands);
    assert [0][..|[0]| - 1] == [];
    assert WritesAmong(image, [], address) == [] && UnresolvedAmong(image, []) == 0;
    assert WritesAmong(image, [0], address) == [];
    assert UnresolvedAmong(image, [0]) == 0;
    assert CallsAmong([]) == [];
  }

  // ----- narrowing by guards -----

  datatype Guard = Guard(rva: int, next: int, lo: Option<int>, hi: Option<int>)

  const SIGNED: set<string> := {"jg", "jge", "jl", "jle"}

  /** What falling through a conditional branch says about the compared value. */
  function FallthroughBounds(mnemonic: string, limit: int): Option<(Option<int>, Option<int>)> {
    if mnemonic in {"ja", "jg"} then Some((None, Some(limit)))
    else if mnemonic in {"jae", "jge"} then Some((None, Some(limit - 1)))
    else if mnemonic in {"jb", "jl"} then Some((Some(limit), None))
    else if mnemonic in {"jbe", "jle"} then Some((Some(limit + 1), None))
    else None
  }

  predicate InBounds(lo: Option<int>, hi: Option<int>, x: int) {
    (lo.Some? ==> x >= lo.value) && (hi.Some? ==> x <= hi.value)
  }

  /** Whether the branch is not taken, comparing `n`-valued words. */
  predicate FallsThroughOn(mnemonic: string, x: int, limit: int, n: nat)
    requires n > 0
  {
    var a, b := if mnemonic in SIGNED then x else x % n, if mnemonic in SIGNED then limit else limit % n;
    if mnemonic in {"ja", "jg"} then !(a > b)
    else if mnemonic in {"jae", "jge"} then !(a >= b)
    else if mnemonic in {"jb", "jl"} then !(a < b)
    else !(a <= b)
  }

  /** There are bounds for the eight ordered comparisons; they are what falling through means
      exactly when the comparison is a signed one or the two values have the same sign: values
      here are signed, and an unsigned branch takes a negative one for a large one. */
  lemma BoundsAreExact(mnemonic: string, x: int, limit: int, half: int)
    requires half > 0 && -half <= x < half && -half <= limit < half
    ensures FallthroughBounds(mnemonic, limit).Some?
            <==> mnemonic in {"ja", "jae", "jb", "jbe", "jg", "jge", "jl", "jle"}
    ensures FallthroughBounds(mnemonic, limit).Some? ==>
              var (lo, hi) := FallthroughBounds(mnemonic, limit).value;
              (InBounds(lo, hi, x) <==> FallsThroughOn(mnemonic, x, limit, 2 * half))
              <==> mnemonic in {"jg", "jge", "jl", "jle"} || (x < 0) == (limit < 0)
  {
    Residue(x, half);
    Residue(limit, half);
  }

  /** A byte of -1 is within the bound of `ja` at 5, and the branch is taken on it. */
  lemma UnsignedBoundMisjudges()
    ensures InBounds(None, Some(5), -1) && FallthroughBounds("ja", 5) == Some((None, Some(5)))
    ensures !FallsThroughOn("ja", -1, 5, 0x100)
  {
  }

  lemma Residue(x: int, half: int)
    requires half > 0 && -half <= x < half
    ensures x % (2 * half) == if x < 0 then x + 2 * half else x
  {
    if x < 0 { ModUnique(x, -1, x + 2 * half, 2 * half); } else { SmallMod(x, 2 * half); }
  }

  predicate Addresses(image: Image, insn: Insn, address: int) {
    exists op :: op in insn.operands && op.kind == MEM && MemoryAddress(insn, op, image) == Some(address)
  }

  /** A comparison of the address with an immediate, and a conditional branch behind it. */
  function GuardAt(image: Image, rva: int, address: int): Option<Guard> {
    match InsnAt(image, rva)
    case None => None
    case Some(insn) =>
      if insn.mnemonic != "cmp" || !Addresses(image, insn, address) then None
      else match FirstImm(insn.operands)
        case None => None
        case Some(limit) =>
          match InsnAt(image, rva + insn.size)
          case None => None
          case Some(next) =>
            if !next.isCond then None
            else match FallthroughBounds(next.mnemonic, limit)
              case None => None
              case Some(bounds) => Some(Guard(rva, rva + insn.size + next.size, bounds.0, bounds.1))
  }

  function GuardsAmong(image: Image, rvas: seq<int>, address: int): seq<Guard> {
    if rvas == [] then []
    else GuardsAmong(image, rvas[..|rvas| - 1], address)
         + match GuardAt(image, rvas[|rvas| - 1], address) case None => [] case Some(g) => [g]
  }

  /** There is a guard exactly where a `cmp` of the address with an immediate is followed by one of
      the eight ordered conditional jumps; it starts at the comparison, goes on behind the jump, and
      has the bounds of that jump at the first immediate. */
  lemma GuardExactly(image: Image, rva: int, address: int, g: Guard)
    ensures GuardAt(image, rva, address) == Some(g) <==>
            InsnAt(image, rva).Some?
            && var insn := InsnAt(image, rva).value;
               && insn.mnemonic == "cmp" && FirstImm(insn.operands).Some? && InsnAt(image, rva + insn.size).Some?
               && (exists op :: op in insn.operands && Refers(insn, op, image, (address, MEMORY)))
               && var next := InsnAt(image, rva + insn.size).value;
                  && next.isCond && next.mnemonic in {"ja", "jae", "jb", "jbe", "jg", "jge", "jl", "jle"}
                  && g.rva == rva && g.next == rva + insn.size + next.size
                  && Some((g.lo, g.hi)) == FallthroughBounds(next.mnemonic, FirstImm(insn.operands).value)
  {
    hide InsnAt, FirstImm;
    if InsnAt(image, rva).Some? {
      var insn := InsnAt(image, rva).value;
      forall op ensures MemoryAddress(insn, op, image) == Some(address) <==>
                        Refers(insn, op, image, (address, MEMORY)) {
        AddressRefers(insn, op, image, address);
      }
      assert forall op :: Refers(insn, op, image, (address, MEMORY)) ==> op.kind == MEM;
    }
  }

  predicate Adjacent(guards: seq<Guard>) {
    forall i :: 0 <= i < |guards| - 1 ==> guards[i].next == guards[i + 1].rva
  }

  /** The guards, if they form one chain in which each is reached by falling through the one
      before. They come in address order. */
  method SingleGuardChain(guards: seq<Guard>) returns (chain: Option<seq<Guard>>)
    ensures chain.Some? <==> guards != [] && forall i :: 0 <= i < |guards| - 1 ==> guards[i].next == guards[i + 1].rva
    ensures chain == if guards != [] && Adjacent(guards) then Some(guards) else None
  {
    if guards == [] { return None; }
    var chains := [[guards[0]]];
    for k := 1 to |guards|
      invariant |chains| >= 1 && |chains[|chains| - 1]| >= 1
      invariant chains[|chains| - 1][|chains[|chains| - 1]| - 1] == guards[k - 1]
      invariant |chains| == 1 <==> Adjacent(guards[..k])
      invariant |chains| == 1 ==> chains[0] == guards[..k]
    {
      var last := chains[|chains| - 1];
      assert guards[..k + 1] == guards[..k] + [guards[k]];
      AdjacentExtends(guards, k);
      if guards[k].rva == last[|last| - 1].next {
        chains := chains[|chains| - 1 := last + [guards[k]]];
      } else {
        chains := chains + [[guards[k]]];
      }
    }
    assert guards[..|guards|] == guards;
    chain := if |chains| != 1 then None else Some(chains[0]);
  }

  lemma AdjacentExtends(guards: seq<Guard>, k: nat)
    requires 1 <= k < |guards|
    ensures Adjacent(guards[..k + 1]) <==> Adjacent(guards[..k]) && guards[k - 1].next == guards[k].rva
  {
  }

  /** The largest lower bound and the smallest upper bound. */
  function Tightest(chain: seq<Guard>): (Option<int>, Option<int>) {
    if chain == [] then (None, None)
    else
      var (lo, hi) := Tightest(chain[..|chain| - 1]);
      var g := chain[|chain| - 1];
      (if lo.None? then g.lo else if g.lo.None? then lo else Some(Max(lo.value, g.lo.value)),
       if hi.None? then g.hi else if g.hi.None? then hi else Some(Min(hi.value, g.hi.value)))
  }

  lemma {:induction false} TightestIsAll(chain: seq<Guard>, x: int)
    ensures InBounds(Tightest(chain).0, Tightest(chain).1, x) <==> forall g :: g in chain ==> InBounds(g.lo, g.hi, x)
  {
    if chain != [] {
      TightestIsAll(chain[..|chain| - 1], x);
      assert chain == chain[..|chain| - 1] + [chain[|chain| - 1]];
    }
  }

  function Narrowed(base: ValueSet, chain: seq<Guard>): ValueSet {
    var (lo, hi) := Tightest(chain);
    var evidence := seq(|chain|, i requires 0 <= i < |chain| => Evidence(chain[i].rva, GuardImplies(lo, hi)));
    match base.kind
    case SET =>
      EMPTY.(kind := SET, values := (set v | v in base.values && InBounds(lo, hi, v)),
             writers := base.writers + evidence)
    case RANGE =>
      var newLo := if lo.None? then base.lo else Max(base.lo, lo.value);
      var newHi := if hi.None? then base.hi else Min(base.hi, hi.value);
      if newHi < newLo then EMPTY.(unresolvedWrites := base.unresolvedWrites)
      else EMPTY.(kind := RANGE, lo := newLo, hi := newHi, writers := base.writers + evidence)
    case _ => base
  }

  /** A narrowed set has exactly the members that pass every guard of the chain; an undecided
      one stays as it is. */
  lemma NarrowedIsExact(base: ValueSet, chain: seq<Guard>, x: int)
    requires WellFormed(base)
    ensures WellFormed(Narrowed(base, chain)) && (IsDecided(Narrowed(base, chain)) <==> IsDecided(base))
    ensures IsDecided(base) ==>
              Contains(Narrowed(base, chain), x)
              == Some(Contains(base, x).value && forall g :: g in chain ==> InBounds(g.lo, g.hi, x))
    ensures !IsDecided(base) ==> Narrowed(base, chain) == base
  {
    TightestIsAll(chain, x);
  }

  /** The comparison and the branch a guard was made of. */
  /** A narrowed set keeps the evidence of the base, and has each guard's. */
  lemma NarrowedNamesGuards(base: ValueSet, chain: seq<Guard>, rva: int)
    requires base.kind in {SET, RANGE} && Narrowed(base, chain).kind != NONE
    ensures base.writers <= Narrowed(base, chain).writers && |Narrowed(base, chain).writers| == |base.writers| + |chain|
    ensures (exists e :: e in Narrowed(base, chain).writers && e.rva == rva) <==>
            (exists e :: e in base.writers && e.rva == rva) || exists g :: g in chain && g.rva == rva
  {
    var v := Narrowed(base, chain);
    forall i | 0 <= i < |chain| ensures v.writers[|base.writers| + i].rva == chain[i].rva { }
    if g :| g in chain && g.rva == rva {
      var i :| 0 <= i < |chain| && chain[i] == g;
      assert v.writers[|base.writers| + i] in v.writers;
    }
    if e :| e in base.writers && e.rva == rva { assert e in v.writers; }
  }

  predicate IsGuard(image: Image, address: int, g: Guard) { GuardAt(image, g.rva, address) == Some(g) }

  function GuardLimit(image: Image, address: int, g: Guard): int
    requires IsGuard(image, address, g)
  {
    FirstImm(InsnAt(image, g.rva).value.operands).value
  }

  function GuardBranch(image: Image, address: int, g: Guard): string
    requires IsGuard(image, address, g)
  {
    InsnAt(image, g.rva + InsnAt(image, g.rva).value.size).value.mnemonic
  }

  /** The guard's branch is not taken when the cell holds x. */
  predicate FallsThrough(image: Image, address: int, g: Guard, x: int, half: int)
    requires IsGuard(image, address, g) && half > 0
  {
    FallsThroughOn(GuardBranch(image, address, g), x, GuardLimit(image, address, g), 2 * half)
  }

  /** The guard compares signed, or two values of one sign. */
  predicate SignsMatch(image: Image, address: int, g: Guard, x: int)
    requires IsGuard(image, address, g)
  {
    GuardBranch(image, address, g) in SIGNED || (x < 0) == (GuardLimit(image, address, g) < 0)
  }

  lemma GuardMeans(image: Image, address: int, g: Guard, x: int, half: int)
    requires IsGuard(image, address, g) && half > 0
    requires -half <= x < half && -half <= GuardLimit(image, address, g) < half
    ensures (InBounds(g.lo, g.hi, x) <==> FallsThrough(image, address, g, x, half))
            <==> SignsMatch(image, address, g, x)
  {
    hide InsnAt, FirstImm, Addresses, FallsThroughOn;
    BoundsAreExact(GuardBranch(image, address, g), x, GuardLimit(image, address, g), half);
  }

  lemma {:induction false} GuardsAreGuards(image: Image, rvas: seq<int>, address: int)
    ensures forall g :: g in GuardsAmong(image, rvas, address) ==> IsGuard(image, address, g)
  {
    hide InsnAt, FirstImm, Addresses;
    if rvas != [] { GuardsAreGuards(image, rvas[..|rvas| - 1], address); }
  }

  predicate PassesAll(chain: seq<Guard>, x: int) { forall g :: g in chain ==> InBounds(g.lo, g.hi, x) }

  /** A chain of guards, with limits of the width that is compared. */
  predicate AreGuards(image: Image, address: int, chain: seq<Guard>, half: int) {
    forall g :: g in chain ==> IsGuard(image, address, g) && -half <= GuardLimit(image, address, g) < half
  }

  predicate AllFallThrough(image: Image, address: int, chain: seq<Guard>, x: int, half: int)
    requires half > 0 && AreGuards(image, address, chain, half)
  {
    forall g :: g in chain ==> FallsThrough(image, address, g, x, half)
  }

  predicate AllSignsMatch(image: Image, address: int, chain: seq<Guard>, x: int, half: int)
    requires AreGuards(image, address, chain, half)
  {
    forall g :: g in chain ==> SignsMatch(image, address, g, x)
  }

  lemma PassingMeans(image: Image, address: int, chain: seq<Guard>, x: int, half: int)
    requires half > 0 && -half <= x < half && AreGuards(image, address, chain, half)
    ensures (PassesAll(chain, x) <==> AllFallThrough(image, address, chain, x, half))
            <==> AllSignsMatch(image, address, chain, x, half) || RejectedTwice(image, address, chain, x, half)
    ensures |chain| == 1 ==>
              !RejectedTwice(image, address, chain, x, half) || AllSignsMatch(image, address, chain, x, half)
  {
    hide IsGuard, FallsThrough, SignsMatch, GuardLimit, InBounds;
    forall g | g in chain
      ensures (InBounds(g.lo, g.hi, x) <==> FallsThrough(image, address, g, x, half))
              <==> SignsMatch(image, address, g, x)
    {
      GuardMeans(image, address, g, x, half);
    }
    if |chain| == 1 { assert chain[0] in chain && forall g :: g in chain ==> g == chain[0]; }
  }

  /** A member of the base stays exactly when the branch of every guard of the chain falls
      through on it, if and only if each guard compares signed or two values of one sign, or the
      member is rejected either way: by the bounds of some guard, and by the branch of some. With
      a single guard it is the signs alone that decide. */
  lemma NarrowedFallsThrough(image: Image, address: int, base: ValueSet, chain: seq<Guard>, x: int, half: int)
    requires WellFormed(base) && IsDecided(base) && half > 0 && -half <= x < half
    requires AreGuards(image, address, chain, half)
    ensures Contains(base, x) == Some(false) ==> Contains(Narrowed(base, chain), x) == Some(false)
    ensures Contains(base, x) == Some(true) ==>
              (Contains(Narrowed(base, chain), x) == Some(AllFallThrough(image, address, chain, x, half))
               <==> AllSignsMatch(image, address, chain, x, half) || RejectedTwice(image, address, chain, x, half))
    ensures |chain| == 1 && Contains(base, x) == Some(true) ==>
              (Contains(Narrowed(base, chain), x) == Some(AllFallThrough(image, address, chain, x, half))
               <==> AllSignsMatch(image, address, chain, x, half))
  {
    hide Narrowed, AreGuards, AllFallThrough, AllSignsMatch, RejectedTwice, WellFormed, InBounds;
    NarrowedIsExact(base, chain, x);
    PassingMeans(image, address, chain, x, half);
  }

  /** Some guard's bounds exclude x, and some guard's branch is taken on it. */
  predicate RejectedTwice(image: Image, address: int, chain: seq<Guard>, x: int, half: int)
    requires half > 0 && AreGuards(image, address, chain, half)
  {
    && (exists g :: g in chain && !InBounds(g.lo, g.hi, x))
    && exists g :: g in chain && !FallsThrough(image, address, g, x, half)
  }

  /** `cmp [0x20], 5; ja` with a base that holds -1: the bound keeps -1, for which, taken
      unsigned, the branch is taken. */
  lemma UnsignedGuardKeepsNegative()
    ensures var op := Operand(MEM, 1, 0, 0, 0, 0, 0, 1, 0x20, false);
            var cmp := Insn(0, 7, "cmp", [op, Operand(IMM, 1, 0, 5, 0, 0, 0, 1, 0, false)], false, false, false, false);
            var ja := Insn(7, 2, "ja", [], false, true, false, true);
            var image := Image(0, 4, [Section(0, 0x100, 0, true)],
                               rva => if rva == 0 then Decoded(cmp) else if rva == 7 then Decoded(ja) else NoBytes,
                               _ => None, _ => None);
            var base, g := EMPTY.(kind := SET, values := {-1}), Guard(0, 9, None, Some(5));
            && AreGuards(image, 0x20, [g], 0x80) && Contains(Narrowed(base, [g]), -1) == Some(true)
            && !FallsThrough(image, 0x20, g, -1, 0x80)
  {
    hide InsnAt, MemoryAddress, GuardAt, FirstImm, Narrowed, Contains;
    var op := Operand(MEM, 1, 0, 0, 0, 0, 0, 1, 0x20, false);
    var imm := Operand(IMM, 1, 0, 5, 0, 0, 0, 1, 0, false);
    var cmp := Insn(0, 7, "cmp", [op, imm], false, false, false, false);
    var ja := Insn(7, 2, "ja", [], false, true, false, true);
    var image := Image(0, 4, [Section(0, 0x100, 0, true)],
                       rva => if rva == 0 then Decoded(cmp) else if rva == 7 then Decoded(ja) else NoBytes,
                       _ => None, _ => None);
    var base, g := EMPTY.(kind := SET, values := {-1}), Guard(0, 9, None, Some(5));
    DecodedInOneSection(image, 0, cmp);
    DecodedInOneSection(image, 7, ja);
    AbsoluteInOneSection(image, cmp, op);
    AboveIsGuard(image, cmp, ja, op, imm);
    NarrowedIsExact(base, [g], -1);
    HoldsValue(base, -1);
  }

  lemma HoldsValue(v: ValueSet, x: int)
    requires v.kind == SET && x in v.values
    ensures Contains(v, x) == Some(true)
  {
  }

  lemma AboveIsGuard(image: Image, cmp: Insn, ja: Insn, op: Operand, imm: Operand)
    requires InsnAt(image, 0) == Some(cmp) && InsnAt(image, cmp.size) == Some(ja)
    requires cmp.mnemonic == "cmp" && cmp.operands == [op, imm] && op.kind == MEM && imm.kind == IMM
    requires ja.mnemonic == "ja" && ja.isCond && MemoryAddress(cmp, op, image).Some?
    ensures GuardAt(image, 0, MemoryAddress(cmp, op, image).value)
            == Some(Guard(0, cmp.size + ja.size, None, Some(imm.imm)))
    ensures FirstImm(cmp.operands) == Some(imm.imm)
  {
    hide InsnAt, MemoryAddress;
    assert op in cmp.operands;
    assert cmp.operands[1..][0] == imm && FirstImm(cmp.operands[1..]) == Some(imm.imm);
  }

  /** Narrowing forgets how many writes were out of scope, unless there were none, the base has
      no values to narrow, or it is a range no value of which passes the guards: so the count of
      a narrowed set says nothing about its scope. */
  lemma NarrowedKeepsCountExactly(base: ValueSet, chain: seq<Guard>)
    requires WellFormed(base)
    ensures Narrowed(base, chain).unresolvedWrites == base.unresolvedWrites
            <==> base.unresolvedWrites == 0 || base.kind !in {SET, RANGE}
                 || (base.kind == RANGE && forall x :: base.lo <= x <= base.hi ==> !PassesAll(chain, x))
  {
    if base.kind == RANGE {
      forall x ensures PassesAll(chain, x) <==> InBounds(Tightest(chain).0, Tightest(chain).1, x) {
        TightestIsAll(chain, x);
      }
      var (lo, hi) := Tightest(chain);
      var first := if lo.None? then base.lo else Max(base.lo, lo.value);
      assert Narrowed(base, chain).kind != NONE ==> base.lo <= first <= base.hi && InBounds(lo, hi, first);
    }
  }

  /** A set that counts two writes out of scope counts none once it is narrowed. */
  lemma NarrowedCountLost(g: Guard)
    ensures Narrowed(OfValue(1, 0).(unresolvedWrites := 2), [g]).unresolvedWrites == 0
  {
  }

  /** The value set of an address, narrowed if its guards form a single chain. */
  method NarrowByGuards(decoder: InstructionDecoder, address: int, base: ValueSet) returns (v: ValueSet)
    requires decoder.Valid()
    modifies decoder, decoder.sizeAt
    ensures decoder.Valid()
    ensures var guards := GuardsAmong(decoder.image, RecordedList(old(decoder.sizeAt[..]), decoder.sizeAt.Length),
                                   address);
            v == if guards != [] && Adjacent(guards) then Narrowed(base, guards) else base
  {
    hide InstructionDecoder.Valid, RecordedList, Narrowed, GuardAt, Adjacent;
    var rvas := decoder.DecodedRvas();
    var guards: seq<Guard> := [];
    for k := 0 to |rvas|
      invariant decoder.Valid() && guards == GuardsAmong(decoder.image, rvas[..k], address)
    {
      assert rvas[..k + 1][..k] == rvas[..k];
      var guard := FindGuard(decoder, rvas[k], address);
      if guard.Some? { guards := guards + [guard.value]; }
    }
    assert rvas[..|rvas|] == rvas;
    var chain := SingleGuardChain(guards);
    v := if chain.None? then base else Narrowed(base, chain.value);
  }

  method FindGuard(decoder: InstructionDecoder, rva: int, address: int) returns (guard: Option<Guard>)
    requires decoder.Valid()
    modifies decoder, decoder.sizeAt
    ensures decoder.Valid() && guard == GuardAt(decoder.image, rva, address)
  {
    hide InstructionDecoder.Valid, SizesAfter, InstructionDecoder.FailureReason, FailureOf, Keys, Addresses, InsnAt;
    var insn := decoder.DecodeOne(rva);
    if insn.None? || insn.value.mnemonic != "cmp" { return None; }
    if !Addresses(decoder.image, insn.value, address) { return None; }
    var limit := FirstImm(insn.value.operands);
    if limit.None? { return None; }
    var next := decoder.DecodeOne(rva + insn.value.size);
    if next.None? || !next.value.isCond { return None; }
    var bounds := FallthroughBounds(next.value.mnemonic, limit.value);
    if bounds.None? { return None; }
    guard := Some(Guard(rva, rva + insn.value.size + next.value.size, bounds.value.0, bounds.value.1));
  }
}
