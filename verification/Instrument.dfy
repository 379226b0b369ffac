/** Instrumentation: near jumps, memory within their reach, and hooks that come off again. */
module Instrument {
  import opened Wrappers

  type Byte = x: int | 0 <= x < 256

  // ----- near jumps -----

  const JMP: Byte := 0xE9
  const TWO_31: int := 0x8000_0000
  const TWO_32: int := 0x1_0000_0000

  predicate FitsRel32(rel: int) { -TWO_31 <= rel < TWO_31 }

  function LittleEndian(x: int, n: nat): (r: seq<Byte>)
    requires x >= 0
    ensures |r| == n
  {
    if n == 0 then [] else [x % 256] + LittleEndian(x / 256, n - 1)
  }

  function FromLittleEndian(bytes: seq<Byte>): (r: int)
    ensures r >= 0
  {
    if bytes == [] then 0 else bytes[0] + 256 * FromLittleEndian(bytes[1..])
  }

  /** A five-byte jump, unless the distance does not fit. */
  function BuildAbsJmp(from: int, to: int): Option<seq<Byte>> {
    var rel := to - (from + 5);
    if !FitsRel32(rel) then None else Some([JMP] + LittleEndian(rel % TWO_32, 4))
  }

  /** Where the processor goes from a jump at an address. */
  function JumpTarget(code: seq<Byte>, at: int): Option<int> {
    if |code| < 5 || code[0] != JMP then None
    else
      var rel := FromLittleEndian(code[1..5]);
      Some(at + 5 + if rel < TWO_31 then rel else rel - TWO_32)
  }

  function Power256(n: nat): (r: int)
    ensures r >= 1
  {
    if n == 0 then 1 else 256 * Power256(n - 1)
  }

  lemma {:induction false} LittleEndianRoundTrip(x: int, n: nat)
    requires 0 <= x < Power256(n)
    ensures FromLittleEndian(LittleEndian(x, n)) == x
    decreases n
  {
    if n > 0 {
      LittleEndianRoundTrip(x / 256, n - 1);
      assert LittleEndian(x, n)[1..] == LittleEndian(x / 256, n - 1);
    }
  }

  /** The jump exists exactly when its distance fits, and then lands where it was meant to. */
  lemma JumpLands(from: int, to: int)
    ensures BuildAbsJmp(from, to).Some? <==> FitsRel32(to - (from + 5))
    ensures BuildAbsJmp(from, to).Some? ==>
              |BuildAbsJmp(from, to).value| == 5 && JumpTarget(BuildAbsJmp(from, to).value, from) == Some(to)
  {
    var rel := to - (from + 5);
    if FitsRel32(rel) {
      var code := BuildAbsJmp(from, to).value;
      assert code[1..5] == LittleEndian(rel % TWO_32, 4);
      assert Power256(4) == TWO_32 by { assert Power256(2) == 256 * Power256(1) == 65536; }
      LittleEndianRoundTrip(rel % TWO_32, 4);
    }
  }

  function BuildStub(target: int, payload: int): Option<seq<Byte>> { BuildAbsJmp(target, payload) }

  function BuildTrampoline(original: seq<Byte>, trampoline: int, target: int): Option<seq<Byte>> {
    match BuildAbsJmp(trampoline + |original|, target + |original|)
    case None => None
    case Some(jump) => Some(original + jump)
  }

  // ----- memory within reach -----

  const WINDOW: int := 0x7F00_0000
  const GRANULARITY: int := 0x10000
  const STUB_CAPACITY: int := 0x2000

  datatype Region = Region(base: int, size: int, free: bool)

  function RoundDown(x: int): int { x - x % GRANULARITY }

  function RoundUp(x: int): int { RoundDown(x + GRANULARITY - 1) }

  function Lowest(near: int): int {
    var lo := RoundDown(near - WINDOW);
    if lo < GRANULARITY then GRANULARITY else lo
  }

  function Highest(near: int): int { near + WINDOW }

  /** The address asked for in a region: aligned, and inside the window. */
  function Hint(near: int, size: int, r: Region): int {
    var hint := RoundUp(r.base);
    if hint + size > Highest(near) then Highest(near) - size else hint
  }

  /** The system's side: an allocation at a hint fails, or comes at the hint rounded down. */
  type Allocator = int -> Option<int>

  ghost predicate AllocatorOk(alloc: Allocator) {
    forall hint :: alloc(hint).Some? ==> alloc(hint).value == RoundDown(hint)
  }

  /** Rounding up gives the least allocation boundary from an address on. */
  lemma RoundUpIsLeast(x: int, y: int)
    requires y % GRANULARITY == 0
    ensures RoundUp(x) % GRANULARITY == 0 && RoundUp(x) >= x
    ensures y >= x ==> y >= RoundUp(x)
  {
  }

  /** A free region in which memory can be had: at its first boundary, if that leaves room in
      the region and in the window, or else as far up as the window goes, if the region does. */
  ghost predicate Offers(near: int, size: nat, alloc: Allocator, r: Region, got: int) {
    && r.free && r.size >= size && got != 0
    && if RoundUp(r.base) + size <= Highest(near)
       then RoundUp(r.base) + size <= r.base + r.size && alloc(RoundUp(r.base)) == Some(got)
       else Highest(near) <= r.base + r.size && alloc(Highest(near) - size) == Some(got)
  }

  ghost predicate NoneOffers(near: int, size: nat, alloc: Allocator, regions: seq<Region>) {
    forall r, got :: r in regions ==> !Offers(near, size, alloc, r, got)
  }

  /** Allocate in the first free region of the window that takes it; zero if, and only if, no
      region offers any. */
  method AllocNear(near: int, size: nat, regions: Option<seq<Region>>, alloc: Allocator) returns (got: int)
    requires AllocatorOk(alloc) && size <= WINDOW
    requires regions.Some? ==> forall r :: r in regions.value ==> r.base >= Lowest(near)
    ensures got != 0 ==> InReach(near, size, got)
    ensures regions.None? ==> got == 0
    ensures regions.Some? && got == 0 ==> NoneOffers(near, size, alloc, regions.value)
    ensures regions.Some? && got != 0 ==>
              exists k :: 0 <= k < |regions.value| && NoneOffers(near, size, alloc, regions.value[..k])
                          && Offers(near, size, alloc, regions.value[k], got)
  {
    if regions.None? { return 0; }
    for k := 0 to |regions.value|
      invariant NoneOffers(near, size, alloc, regions.value[..k])
    {
      var r := regions.value[k];
      assert regions.value[..k + 1] == regions.value[..k] + [r];
      if r.free && r.size >= size {
        var hint := Hint(near, size, r);
        if hint + size <= r.base + r.size {
          var answer := alloc(hint);
          if answer.Some? && answer.value != 0 {
            HintInReach(near, size, r);
            assert Offers(near, size, alloc, r, answer.value);
            return answer.value;
          }
        }
      }
    }
    assert regions.value[..|regions.value|] == regions.value;
    got := 0;
  }

  /** All of it lies close enough to an address. */
  predicate InReach(near: int, size: int, got: int) {
    near - WINDOW - GRANULARITY < got && got + size <= near + WINDOW
  }

  /** A hint is in reach, and is not zero, which would leave the choice to the system. */
  lemma HintInReach(near: int, size: nat, r: Region)
    requires r.base >= Lowest(near) && size <= WINDOW
    ensures InReach(near, size, RoundDown(Hint(near, size, r)))
    ensures near >= 0 && size + GRANULARITY <= WINDOW ==> Hint(near, size, r) >= GRANULARITY
  {
  }

  /** In memory within reach a jump from the target to the stub, one from the trampoline back
      behind the copied instructions, and one from anywhere in the stub's buffer to the
      trampoline all exist and land there. */
  lemma AllJumpsLand(target: int, original: seq<Byte>, region: int, p: int)
    requires 5 <= |original| <= 16
    requires InReach(target, |original| + 5 + STUB_CAPACITY, region)
    requires region + |original| + 5 <= p < region + |original| + 5 + STUB_CAPACITY
    ensures var stub := region + |original| + 5;
            && BuildStub(target, stub).Some?
            && JumpTarget(BuildStub(target, stub).value, target) == Some(stub)
            && BuildTrampoline(original, region, target).Some?
            && JumpTarget(BuildTrampoline(original, region, target).value[|original|..], region + |original|)
               == Some(target + |original|)
            && BuildAbsJmp(p, region).Some? && JumpTarget(BuildAbsJmp(p, region).value, p) == Some(region)
  {
    JumpLands(target, region + |original| + 5);
    JumpLands(region + |original|, target + |original|);
    JumpLands(p, region);
    var jump := BuildAbsJmp(region + |original|, target + |original|).value;
    assert (original + jump)[|original|..] == jump;
  }

  // ----- installing and restoring -----

  type Memory = map<int, Byte>

  datatype Hook = Hook(region: int, regionSize: nat, stub: int, original: seq<Byte>)

  /** The target's memory, the regions allocated in it, and the hooks on record. */
  datatype State = State(mem: Memory, regions: set<int>, hooks: map<int, Hook>)

  /** A write that fails can have written some of the first bytes. */
  datatype Write = Done | Failed(landed: nat)

  /** How the calls turn out. */
  datatype Calls = Calls(writeTrampoline: Write, writeStub: Write, writeTarget: Write, writeBack: Write, free: bool)

  datatype Result<+T> = Ok(value: T) | Raised

  /** Bytes are written where memory is mapped. */
  function WriteBytes(m: Memory, addr: int, bytes: seq<Byte>): (r: Memory)
    ensures r.Keys == m.Keys
  {
    map a | a in m :: if addr <= a < addr + |bytes| then bytes[a - addr] else m[a]
  }

  /** How many of n bytes are written. */
  function Landed(w: Write, n: nat): (r: nat)
    ensures r <= n
  {
    if w.Done? || w.landed > n then n else w.landed
  }

  function Wrote(m: Memory, addr: int, bytes: seq<Byte>, w: Write): (r: Memory)
    ensures r.Keys == m.Keys && (w.Done? ==> r == WriteBytes(m, addr, bytes))
  {
    assert bytes[..|bytes|] == bytes;
    WriteBytes(m, addr, bytes[..Landed(w, |bytes|)])
  }

  predicate Holds(m: Memory, addr: int, bytes: seq<Byte>) {
    forall a :: addr <= a < addr + |bytes| ==> a in m && m[a] == bytes[a - addr]
  }

  function Freed(s: State, region: int, ok: bool): State {
    if ok then s.(regions := s.regions - {region}) else s
  }

  /** A failed install puts the original bytes back as far as it can. */
  function Backed(s: State, target: int, original: seq<Byte>, region: int, calls: Calls): State {
    Freed(s.(mem := Wrote(s.mem, target, original, calls.writeBack)), region, calls.free)
  }

  /** `original` is what decoding the first bytes gave, `region` what was allocated, `payload`
      what the compiler produced. */
  function AfterInstall(s: State, target: int, original: Option<seq<Byte>>, region: Option<int>,
                        payload: Option<seq<Byte>>, calls: Calls): (State, Result<Hook>) {
    if target in s.hooks || original.None? || |original.value| < 5 || region.None? then (s, Raised)
    else
      var code, base := original.value, region.value;
      var stub := base + |code| + 5;
      var s1 := s.(regions := s.regions + {base});
      var trampoline := BuildTrampoline(code, base, target);
      if trampoline.None? then (Freed(s1, base, calls.free), Raised)
      else
        var s2 := s1.(mem := Wrote(s1.mem, base, trampoline.value, calls.writeTrampoline));
        if calls.writeTrampoline.Failed? || payload.None? || |payload.value| > STUB_CAPACITY then
          (Freed(s2, base, calls.free), Raised)
        else
          var s3 := s2.(mem := Wrote(s2.mem, stub, payload.value, calls.writeStub));
          var jump := BuildStub(target, stub);
          if calls.writeStub.Failed? || jump.None? then (Backed(s3, target, code, base, calls), Raised)
          else
            var s4 := s3.(mem := Wrote(s3.mem, target, jump.value, calls.writeTarget));
            if calls.writeTarget.Failed? then (Backed(s4, target, code, base, calls), Raised)
            else
              var hook := Hook(base, |code| + 5 + STUB_CAPACITY, stub, code);
              (s4.(hooks := s.hooks[target := hook]), Ok(hook))
  }

  /** The original bytes go back before anything is released. */
  function AfterRestore(s: State, target: int, write: Write, free: bool): (State, Result<()>) {
    if target !in s.hooks then (s, Ok(()))
    else
      var hook := s.hooks[target];
      var s1 := s.(mem := Wrote(s.mem, target, hook.original, write));
      if write.Failed? || !free then (s1, Raised)
      else (State(s1.mem, s.regions - {hook.region}, s.hooks - {target}), Ok(()))
  }

  /** Memory outside a region is the same. */
  ghost predicate SameOutside(m: Memory, m': Memory, region: int, size: nat) {
    m.Keys == m'.Keys && forall a :: a in m && !(region <= a < region + size) ==> m'[a] == m[a]
  }

  predicate Mapped(m: Memory, addr: int, n: nat) { forall a :: addr <= a < addr + n ==> a in m }

  /** The region is apart from the instructions that are replaced. */
  predicate Apart(target: int, n: nat, region: int, size: nat) {
    target + n <= region || region + size <= target
  }

  lemma WritesBack(m: Memory, m': Memory, addr: int, patch: seq<Byte>, bytes: seq<Byte>, region: int, size: nat)
    requires Holds(m, addr, bytes) && |patch| <= |bytes|
    requires SameOutside(WriteBytes(m, addr, patch), m', region, size)
    ensures SameOutside(m, WriteBytes(m', addr, bytes), region, size)
  {
  }

  /** What an install leaves in memory. */
  ghost predicate Installed(m: Memory, m': Memory, target: int, original: seq<Byte>, region: int, payload: seq<Byte>) {
    var stub := region + |original| + 5;
    var enter, resume := BuildAbsJmp(target, stub), BuildAbsJmp(region + |original|, target + |original|);
    && enter.Some? && Holds(m', target, enter.value)
    && Holds(m', stub, payload) && Holds(m', region, original)
    && resume.Some? && Holds(m', region + |original|, resume.value)
    && SameOutside(WriteBytes(m, target, enter.value), m', region, |original| + 5 + STUB_CAPACITY)
  }

  /** An install that succeeds patches five bytes and nothing else outside its region. */
  lemma InstallPatches(s: State, target: int, original: seq<Byte>, region: int, payload: seq<Byte>, calls: Calls)
    requires Holds(s.mem, target, original) && Mapped(s.mem, region, |original| + 5 + STUB_CAPACITY)
    requires Apart(target, |original|, region, |original| + 5 + STUB_CAPACITY)
    requires AfterInstall(s, target, Some(original), Some(region), Some(payload), calls).1.Ok?
    ensures var (s1, r) := AfterInstall(s, target, Some(original), Some(region), Some(payload), calls);
            && Installed(s.mem, s1.mem, target, original, region, payload)
            && r.value == Hook(region, |original| + 5 + STUB_CAPACITY, region + |original| + 5, original)
            && s1.hooks == s.hooks[target := r.value] && s1.regions == s.regions + {region}
  {
    JumpLands(target, region + |original| + 5);
    JumpLands(region + |original|, target + |original|);
    hide WriteBytes, Holds, SameOutside, BuildAbsJmp, Mapped;
    PatchedMemory(s.mem, target, original, region, payload, BuildAbsJmp(target, region + |original| + 5).value,
                  BuildAbsJmp(region + |original|, target + |original|).value);
  }

  lemma PatchedMemory(m: Memory, target: int, original: seq<Byte>, region: int, payload: seq<Byte>,
                      enter: seq<Byte>, resume: seq<Byte>)
    requires Holds(m, target, original) && Mapped(m, region, |original| + 5 + STUB_CAPACITY)
    requires Apart(target, |original|, region, |original| + 5 + STUB_CAPACITY)
    requires |enter| == |resume| == 5 <= |original| && |payload| <= STUB_CAPACITY
    ensures var m3 := WriteBytes(WriteBytes(WriteBytes(m, region, original + resume), region + |original| + 5, payload),
                                 target, enter);
            && Holds(m3, target, enter) && Holds(m3, region + |original| + 5, payload)
            && Holds(m3, region, original) && Holds(m3, region + |original|, resume)
            && SameOutside(WriteBytes(m, target, enter), m3, region, |original| + 5 + STUB_CAPACITY)
  {
  }

  /** A failed install leaves part of its jump in the target: a byte of it was written and differs,
      and putting the original back failed before it. */
  predicate Torn(target: int, original: seq<Byte>, region: int, payload: Option<seq<Byte>>, calls: Calls) {
    var jump := BuildAbsJmp(target, region + |original| + 5);
    && calls.writeTrampoline.Done? && calls.writeStub.Done? && payload.Some? && |payload.value| <= STUB_CAPACITY
    && BuildTrampoline(original, region, target).Some? && jump.Some?
    && exists i :: 0 <= i < 5 <= |original| && jump.value[i] != original[i]
                   && Landed(calls.writeBack, |original|) <= i < Landed(calls.writeTarget, 5)
  }

  /** An install that fails adds no hook and, if it can free, no region; and it leaves everything
      outside its region as it was exactly when the target is not torn. */
  lemma FailedInstallExactly(s: State, target: int, original: seq<Byte>, region: int,
                             payload: Option<seq<Byte>>, calls: Calls)
    requires Holds(s.mem, target, original) && target !in s.hooks
    requires Apart(target, |original|, region, |original| + 5 + STUB_CAPACITY)
    requires AfterInstall(s, target, Some(original), Some(region), payload, calls).1.Raised?
    ensures var s1 := AfterInstall(s, target, Some(original), Some(region), payload, calls).0;
            && s1.hooks == s.hooks && (calls.free && region !in s.regions ==> s1.regions == s.regions)
            && (SameOutside(s.mem, s1.mem, region, |original| + 5 + STUB_CAPACITY)
                <==> !Torn(target, original, region, payload, calls))
  {
    hide LittleEndian, BuildTrampoline, BuildAbsJmp, SameOutside, WriteBytes, Wrote, Apart, Holds;
    var size, stub := |original| + 5 + STUB_CAPACITY, region + |original| + 5;
    var trampoline, jump := BuildTrampoline(original, region, target), BuildAbsJmp(target, stub);
    TrampolineSize(original, region, target);
    JumpLands(target, stub);
    assert region !in s.regions ==> s.regions + {region} - {region} == s.regions;
    SameAsItself(s.mem, region, size);
    if |original| >= 5 && trampoline.Some? {
      var m2 := Wrote(s.mem, region, trampoline.value, calls.writeTrampoline);
      WritesInside(s.mem, s.mem, region, trampoline.value, calls.writeTrampoline, region, size);
      if calls.writeTrampoline.Done? && payload.Some? && |payload.value| <= STUB_CAPACITY {
        var m3 := Wrote(m2, stub, payload.value, calls.writeStub);
        WritesInside(s.mem, m2, stub, payload.value, calls.writeStub, region, size);
        if calls.writeStub.Failed? || jump.None? {
          WritesNothing(m3, target);
          TornMemory(s.mem, m3, target, original, [], Done, calls.writeBack, region, size);
        } else {
          TornMemory(s.mem, m3, target, original, jump.value, calls.writeTarget, calls.writeBack, region, size);
        }
      }
    }
  }

  lemma SameAsItself(m: Memory, region: int, size: nat)
    ensures SameOutside(m, m, region, size)
  {
  }

  lemma WritesNothing(m: Memory, addr: int)
    ensures Wrote(m, addr, [], Done) == m
  {
  }

  lemma TrampolineSize(original: seq<Byte>, trampoline: int, target: int)
    ensures var r := BuildTrampoline(original, trampoline, target); r.Some? ==> |r.value| == |original| + 5
  {
    JumpLands(trampoline + |original|, target + |original|);
  }

  lemma WritesInside(m: Memory, m': Memory, addr: int, bytes: seq<Byte>, w: Write, region: int, size: nat)
    requires SameOutside(m, m', region, size) && region <= addr && addr + |bytes| <= region + size
    ensures SameOutside(m, Wrote(m', addr, bytes, w), region, size)
  {
  }

  /** What is left of a jump that may have been written in part, and was put back in part. */
  lemma TornMemory(m: Memory, m': Memory, target: int, original: seq<Byte>, jump: seq<Byte>, w: Write, back: Write,
                   region: int, size: nat)
    requires Holds(m, target, original) && Apart(target, |original|, region, size)
    requires SameOutside(m, m', region, size) && |jump| <= |original|
    ensures SameOutside(m, Wrote(Wrote(m', target, jump, w), target, original, back), region, size)
            <==> forall i :: Landed(back, |original|) <= i < Landed(w, |jump|) ==> jump[i] == original[i]
  {
    var m2 := Wrote(Wrote(m', target, jump, w), target, original, back);
    if SameOutside(m, m2, region, size) {
      forall i | Landed(back, |original|) <= i < Landed(w, |jump|) ensures jump[i] == original[i] {
        assert target + i in m && m[target + i] == original[i] && m2[target + i] == m[target + i];
      }
    }
  }

  /** An install succeeds exactly when there is no hook yet, at least five bytes of whole
      instructions could be decoded, memory was found, the payload compiled and fits the stub, both
      jumps reach, and all three writes succeed. */
  lemma InstallSucceedsExactly(s: State, target: int, original: Option<seq<Byte>>, region: Option<int>,
                               payload: Option<seq<Byte>>, calls: Calls)
    ensures AfterInstall(s, target, original, region, payload, calls).1.Ok? <==>
            && target !in s.hooks && original.Some? && |original.value| >= 5
            && region.Some? && payload.Some? && |payload.value| <= 0x2000
            && -0x8000_0000 <= target - region.value - 5 < 0x8000_0000
            && -0x8000_0000 <= region.value + |original.value| - target < 0x8000_0000
            && calls.writeTrampoline.Done? && calls.writeStub.Done? && calls.writeTarget.Done?
  {
    hide WriteBytes, LittleEndian;
    if original.Some? && region.Some? {
      JumpLands(target, region.value + |original.value| + 5);
      JumpLands(region.value + |original.value|, target + |original.value|);
    }
  }

  /** A restore succeeds exactly when there is nothing to restore or both its calls succeed. */
  lemma RestoreSucceedsExactly(s: State, target: int, write: Write, free: bool)
    ensures AfterRestore(s, target, write, free).1.Ok? <==> (target in s.hooks ==> write.Done? && free)
    ensures target !in s.hooks ==> AfterRestore(s, target, write, free).0 == s
  {
  }

  /** Restoring undoes installing: the memory outside the region, the regions and the hooks
      are what they were. */
  lemma RestoreUndoesInstall(s: State, target: int, original: seq<Byte>, region: int, payload: seq<Byte>, calls: Calls)
    requires Holds(s.mem, target, original) && Mapped(s.mem, region, |original| + 5 + STUB_CAPACITY)
    requires Apart(target, |original|, region, |original| + 5 + STUB_CAPACITY) && region !in s.regions
    requires AfterInstall(s, target, Some(original), Some(region), Some(payload), calls).1.Ok?
    ensures var s1 := AfterInstall(s, target, Some(original), Some(region), Some(payload), calls).0;
            var (s2, r) := AfterRestore(s1, target, Done, true);
            && r.Ok? && s2.hooks == s.hooks && s2.regions == s.regions
            && SameOutside(s.mem, s2.mem, region, |original| + 5 + STUB_CAPACITY)
  {
    InstallPatches(s, target, original, region, payload, calls);
    JumpLands(target, region + |original| + 5);
    assert target !in s.hooks && |original| >= 5;
    var (s1, r) := AfterInstall(s, target, Some(original), Some(region), Some(payload), calls);
    hide AfterInstall, WriteBytes, SameOutside, Holds, BuildAbsJmp, Mapped;
    WritesBack(s.mem, s1.mem, target, BuildAbsJmp(target, region + |original| + 5).value, original,
               region, |original| + 5 + STUB_CAPACITY);
    assert s.regions + {region} - {region} == s.regions;
    assert s.hooks[target := r.value] - {target} == s.hooks;
  }

  /** A restore that raised can be repeated: once one succeeds, the state is what it would have
      been had the first one succeeded. */
  lemma RestoreCanBeRepeated(s: State, target: int, write: Write, free: bool)
    requires AfterRestore(s, target, write, free).1.Raised?
    ensures AfterRestore(AfterRestore(s, target, write, free).0, target, Done, true)
            == AfterRestore(s, target, Done, true)
  {
    var bytes := s.hooks[target].original;
    assert bytes[..|bytes|] == bytes;
    assert WriteBytes(Wrote(s.mem, target, bytes, write), target, bytes) == WriteBytes(s.mem, target, bytes);
  }

  class Instrumenter {
    var mem: Memory
    var regions: set<int>
    var hooks: map<int, Hook>

    ghost function Now(): State
      reads this
    {
      State(mem, regions, hooks)
    }

    constructor (mem: Memory)
      ensures Now() == State(mem, {}, map[])
    {
      this.mem, regions, hooks := mem, {}, map[];
    }

    method Install(target: int, original: Option<seq<Byte>>, region: Option<int>, payload: Option<seq<Byte>>,
                   calls: Calls)
      returns (r: Result<Hook>)
      modifies this
      ensures (Now(), r) == AfterInstall(old(Now()), target, original, region, payload, calls)
    {
      hide WriteBytes, BuildAbsJmp;
      if target in hooks { return Raised; }
      if original.None? || |original.value| < 5 { return Raised; }
      if region.None? { return Raised; }
      var base, stub := region.value, region.value + |original.value| + 5;
      regions := regions + {base};
      var trampoline := BuildTrampoline(original.value, base, target);
      if trampoline.None? {
        Free(base, calls.free);
        return Raised;
      }
      mem := Wrote(mem, base, trampoline.value, calls.writeTrampoline);
      if calls.writeTrampoline.Failed? || payload.None? || |payload.value| > STUB_CAPACITY {
        Free(base, calls.free);
        return Raised;
      }
      mem := Wrote(mem, stub, payload.value, calls.writeStub);
      var jump := BuildStub(target, stub);
      if calls.writeStub.Failed? || jump.None? {
        PutBack(target, original.value, base, calls);
        return Raised;
      }
      mem := Wrote(mem, target, jump.value, calls.writeTarget);
      if calls.writeTarget.Failed? {
        PutBack(target, original.value, base, calls);
        return Raised;
      }
      var hook := Hook(base, |original.value| + 5 + STUB_CAPACITY, stub, original.value);
      hooks := hooks[target := hook];
      r := Ok(hook);
    }

    method Free(region: int, ok: bool)
      modifies this`regions
      ensures Now() == Freed(old(Now()), region, ok)
    {
      if ok { regions := regions - {region}; }
    }

    method PutBack(target: int, original: seq<Byte>, region: int, calls: Calls)
      modifies this`mem, this`regions
      ensures Now() == Backed(old(Now()), target, original, region, calls)
    {
      mem := Wrote(mem, target, original, calls.writeBack);
      Free(region, calls.free);
    }

    method Restore(target: int, write: Write, free: bool) returns (r: Result<()>)
      modifies this
      ensures (Now(), r) == AfterRestore(old(Now()), target, write, free)
    {
      hide WriteBytes;
      if target !in hooks { return Ok(()); }
      var hook := hooks[target];
      mem := Wrote(mem, target, hook.original, write);
      if write.Failed? || !free { return Raised; }
      regions := regions - {hook.region};
      hooks := hooks - {target};
      r := Ok(());
    }
  }
}
