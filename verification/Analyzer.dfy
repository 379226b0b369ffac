/** The static analyzer: seeds, sweeps to a fixpoint, budgets. */
module Analyzer {
  import opened Wrappers
  import opened Image
  import opened Functions
  import opened Consts
  import opened Decoder
  import opened Descent
  import opened Names

  const CALL_TARGET: Origin := Some("call_target")
  const JUMP_TARGET: Origin := Some("jump_target")
  const JUMP_TABLE: Origin := Some("jump_table")
  const IMMEDIATE_ORIGIN: Origin := Some("immediate")
  const DISCOVERED: string := "discovered"

  const PAD_BYTES: set<nat> := {0x90, 0xCC, 0xC3, 0xC2, 0x00}

  datatype Item = Item(rva: nat, origin: Origin)

  function Waiting(items: seq<Item>): set<nat> { set it | it in items :: it.rva }

  /** The executable ones among the seeds. */
  function ExecSeeds(image: Image, items: seq<Item>): set<nat> {
    set it | it in items && IsExec(image, it.rva) :: it.rva
  }

  /** Every executable address: a bound on how much can ever be queued. */
  function ExecSet(image: Image): set<nat> { set a: nat | a < Span(image) && IsExec(image, a) }

  /** The first section that contains an address. */
  function SectionOf(sections: seq<Section>, rva: int): Option<Section> {
    if sections == [] then None
    else if InSection(sections[0], rva) then Some(sections[0])
    else SectionOf(sections[1..], rva)
  }

  /** What a function's first instruction looks like: not inside a decoded instruction, and at
      a section's start or behind padding, a return or an int3. */
  function EntryLike(image: Image, sizes: seq<nat>, rva: int): bool
    requires rva <= |sizes|
  {
    Enclosing(sizes, rva) in {None, Some(rva)} &&
    match SectionOf(image.sections, rva)
    case None => false
    case Some(section) =>
      rva == section.va || (image.bytes(rva - 1).Some? && image.bytes(rva - 1).value in PAD_BYTES)
  }

  /** A jump target looks like an entry exactly when no recorded instruction has it inside, and it
      starts its section or follows a byte that pads or ends code: nop, int3, ret, ret n, zero. */
  lemma EntryLikeExactly(image: Image, sizes: seq<nat>, rva: int)
    requires DisassemblerOk(image) && SizesOk(image, sizes) && rva <= |sizes|
    ensures EntryLike(image, sizes, rva) <==>
            && (Recorded(sizes, rva) || forall start :: !Covers(sizes, start, rva))
            && exists k :: 0 <= k < |image.sections| && FirstWith(image.sections, rva, k)
                           && (rva == image.sections[k].va
                               || image.bytes(rva - 1) in {Some(0x90), Some(0xCC), Some(0xC3), Some(0xC2), Some(0x00)})
  {
    hide DisassemblerOk, SizesOk, Enclosing, Covers, Recorded;
    EnclosingExactly(image, sizes, rva);
    SectionIsFirst(image.sections, rva);
  }

  /** The k-th section is the first one that has the address. */
  predicate FirstWith(sections: seq<Section>, rva: int, k: nat)
    requires k < |sections|
  {
    InSection(sections[k], rva) && forall j :: 0 <= j < k ==> !InSection(sections[j], rva)
  }

  lemma {:induction false} SectionIsFirst(sections: seq<Section>, rva: int)
    ensures forall k :: 0 <= k < |sections| && FirstWith(sections, rva, k) ==>
              SectionOf(sections, rva) == Some(sections[k])
    ensures SectionOf(sections, rva).Some? ==> exists k :: 0 <= k < |sections| && FirstWith(sections, rva, k)
  {
    if sections != [] {
      SectionIsFirst(sections[1..], rva);
      if InSection(sections[0], rva) {
        assert FirstWith(sections, rva, 0);
      } else {
        forall k | 0 < k < |sections| ensures FirstWith(sections, rva, k) <==> FirstWith(sections[1..], rva, k - 1) {
          assert forall j :: 0 < j <= k ==> sections[j] == sections[1..][j - 1];
          assert forall j :: 0 <= j < k ==> sections[1..][j] == sections[j + 1];
        }
        if SectionOf(sections, rva).Some? {
          var k :| 0 <= k < |sections[1..]| && FirstWith(sections[1..], rva, k);
          assert FirstWith(sections, rva, k + 1);
        }
      }
    }
  }

  class StaticAnalyzer {
    const image: Image
    const config: Config
    const iatSlots: set<int>
    const decoder: InstructionDecoder
    const functions: FunctionTable
    var pending: seq<Item>
    var queued: set<nat>
    var xrefs: set<Xref>
    var undecodable: set<nat>
    var indirectSites: set<nat>
    var importThunks: map<nat, int>
    var budgetLeft: nat
    var budgetExhausted: bool
    var sweepRounds: nat
    var indirectResolved: nat

    ghost function Now(): Progress
      reads `queued, `pending, `undecodable, `xrefs, `indirectSites, functions`claimed
    {
      Progress(queued, Waiting(pending), functions.claimed, undecodable, xrefs, indirectSites)
    }

    ghost function NamesNow(): Names
      reads `importThunks, functions`callTargets, functions`confident, decoder`claims
    {
      Names(functions.callTargets, functions.confident, importThunks, decoder.claims)
    }

    /** What is named, and claimed, is what the instructions visited and the trusted seeds give. */
    ghost predicate Named(trusted: set<nat>)
      reads `importThunks, `xrefs, functions`callTargets, functions`confident, functions`claimed, decoder`claims
    {
      NamesOk(image, config, iatSlots, trusted, functions.claimed, xrefs, NamesNow())
    }

    /** The decoder has recorded what was decoded, short of what runs past the image. */
    ghost predicate Recording()
      reads decoder.sizeAt, functions`claimed
    {
      forall a: nat :: Recorded(decoder.sizeAt[..], a) <==>
        a in functions.claimed && a + functions.claimed[a] <= decoder.sizeAt.Length
    }

    /** Every address queued is named a start or a code seed, and so are the import thunks;
        and nothing has looked at the function table's caches. */
    ghost predicate Naming()
      reads `queued, `importThunks, functions`starts, functions`codeSeeds, functions`confident, functions`sorted
      reads functions`extentsCache
    {
      && functions.starts + functions.codeSeeds == queued + importThunks.Keys
      && functions.confident <= functions.starts
      && functions.sorted == None && functions.extentsCache == None
    }

    ghost predicate Valid()
      reads `queued, `importThunks, decoder, decoder.sizeAt, decoder.covered, functions
    {
      && decoder.Valid() && decoder.image == image && functions.image == Some(image)
      && Recording() && Naming()
    }

    constructor (image: Image, config: Config, iatSlots: set<int>, cacheSize: nat)
      requires DisassemblerOk(image)
      ensures Valid() && this.image == image && this.config == config && this.iatSlots == iatSlots
      ensures Now() == Progress({}, {}, map[], {}, {}, {}) && NamesNow() == Names({}, {}, map[], [])
      ensures budgetLeft == config.maxTotalInstructions && !budgetExhausted
      ensures fresh(decoder) && fresh(decoder.sizeAt) && fresh(decoder.covered) && fresh(functions)
    {
      this.image, this.config, this.iatSlots := image, config, iatSlots;
      decoder := new InstructionDecoder(image, cacheSize);
      functions := new FunctionTable(Some(image));
      pending, queued, xrefs, undecodable := [], {}, {}, {};
      indirectSites, importThunks := {}, map[];
      budgetLeft, budgetExhausted, sweepRounds, indirectResolved := config.maxTotalInstructions, false, 0, 0;
    }

    // ----- queueing -----

    /** Queue an address as a function entry. */
    method Enqueue(rva: int, conf: bool, origin: Origin)
      requires Valid()
      modifies this`pending, this`queued, functions`starts, functions`confident
      ensures Valid() && Now() == Queue(old(Now()), ExecMember(image, rva))
      ensures functions.starts == old(functions.starts) + ExecMember(image, rva)
      ensures functions.confident
              == if conf then old(functions.confident) + ExecMember(image, rva) else old(functions.confident)
    {
      hide InstructionDecoder.Valid;
      if !IsMapped(image, rva) || !IsExec(image, rva) { return; }
      var isNew := functions.AddStart(rva, conf);
      AddPending(rva, origin);
    }

    /** Queue an address for decoding, without claiming that it starts a function. */
    method EnqueueCodeSeed(rva: int, origin: Origin)
      requires Valid()
      modifies this`pending, this`queued, functions`codeSeeds
      ensures Valid() && Now() == Queue(old(Now()), ExecMember(image, rva))
      ensures functions.codeSeeds == old(functions.codeSeeds) + ExecMember(image, rva)
    {
      hide InstructionDecoder.Valid;
      if !IsMapped(image, rva) || !IsExec(image, rva) { return; }
      var isNew := functions.AddCodeSeed(rva);
      AddPending(rva, origin);
    }

    method AddPending(rva: nat, origin: Origin)
      modifies this`pending, this`queued
      ensures Now() == Queue(old(Now()), {rva})
    {
      if rva !in queued {
        queued := queued + {rva};
        ghost var was := pending;
        pending := pending + [Item(rva, if origin.Some? && origin.value != "" then origin else Some(DISCOVERED))];
        WaitingAppend(was, pending[|was|]);
      }
      assert queued == old(queued) + {rva};
    }

    /** A branch target of a call is a function entry; one of a jump is an entry, and a
        tentative one, only if it looks like one. */
    method SeedBranchTarget(insn: Insn, target: nat, origin: Origin)
      requires Valid() && IsExec(image, target)
      modifies this`pending, this`queued, functions`starts, functions`confident, functions`codeSeeds
      ensures Valid() && Now() == Queue(old(Now()), {target})
      ensures target <= decoder.sizeAt.Length
      ensures var entry := insn.isCall || EntryLike(image, decoder.sizeAt[..], target);
              && functions.confident == old(functions.confident) + (if insn.isCall then {target} else {})
              && functions.starts == old(functions.starts) + (if entry then {target} else {})
              && functions.codeSeeds == old(functions.codeSeeds) + (if entry then {} else {target})
    {
      ExecIsMapped(image, target);
      InsideDecoder(target);
      hide InstructionDecoder.Valid, EntryLike;
      if insn.isCall {
        Enqueue(target, true, origin);
      } else {
        var entry := LooksLikeEntry(target);
        if entry { Enqueue(target, false, origin); } else { EnqueueCodeSeed(target, origin); }
      }
    }

    lemma InsideDecoder(rva: int)
      requires Valid() && IsMapped(image, rva)
      ensures 0 <= rva < decoder.sizeAt.Length
    {
      MappedIsInSpan(image, rva);
    }

    method LooksLikeEntry(rva: int) returns (r: bool)
      requires Valid() && IsMapped(image, rva)
      ensures rva <= decoder.sizeAt.Length && r == EntryLike(image, decoder.sizeAt[..], rva)
    {
      InsideDecoder(rva);
      hide InstructionDecoder.Valid;
      var inside := decoder.EnclosingInstruction(rva);
      if inside.Some? && inside != Some(rva) { return false; }
      assert image.sections[0..] == image.sections;
      for k := 0 to |image.sections|
        invariant SectionOf(image.sections, rva) == SectionOf(image.sections[k..], rva)
      {
        assert image.sections[k..][1..] == image.sections[k + 1..];
        if InSection(image.sections[k], rva) {
          if rva == image.sections[k].va { return true; }
          match image.bytes(rva - 1)
          case None => return false;
          case Some(b) => return b in PAD_BYTES;
        }
      }
      r := false;
    }

    // ----- references -----

    /** Read a table's entries as code seeds and as references. */
    method AbsorbJumpTable(base: int)
      requires Valid() && config.collectXrefs
      modifies this`pending, this`queued, this`xrefs, functions`codeSeeds
      ensures Valid() && Now() == Queue(Refer(old(Now()), TableRefs(image, base, 0)), TableTargets(image, base, 0))
    {
      hide InstructionDecoder.Valid, Queue, Refer;
      QueueTwice(Now(), {}, {});
      ReferTwice(Now(), {}, {}, {});
      ghost var end := Queue(Refer(Now(), TableRefs(image, base, 0)), TableTargets(image, base, 0));
      var index := 0;
      while index < MAX_TABLE
        invariant 0 <= index <= MAX_TABLE && Valid()
        invariant Queue(Refer(Now(), TableRefs(image, base, index)), TableTargets(image, base, index)) == end
      {
        ghost var p := Now();
        var slot := base + index * image.slot;
        match ReadPointer(image, slot) {
          case None => break;
          case Some(value) =>
            var rva := VaToRva(image, value);
            if rva.None? || !IsExec(image, rva.value) { break; }
            xrefs := xrefs + {Xref(rva.value, slot, DATA)};
            assert Now() == Refer(p, {Xref(rva.value, slot, DATA)}) by { ReferIs(p, {Xref(rva.value, slot, DATA)}); }
            EnqueueCodeSeed(rva.value, JUMP_TABLE);
            StepsCombine(p, {Xref(rva.value, slot, DATA)}, {rva.value as nat},
                         TableRefs(image, base, index + 1), TableTargets(image, base, index + 1));
        }
        index := index + 1;
      }
      QueueTwice(Now(), {}, {});
      ReferTwice(Now(), {}, {}, {});
    }

    /** The references of an instruction, and what they queue. */
    method RecordRefs(insn: Insn, rva: nat)
      requires Valid()
      modifies this`pending, this`queued, this`xrefs, this`importThunks
      modifies functions`starts, functions`confident, functions`codeSeeds
      ensures Valid()
      ensures Now() == Queue(Refer(old(Now()), OperandXrefs(image, config, rva, insn)),
                             OperandTargets(image, config, insn))
      ensures var slot := SlotOf(image, config, iatSlots, insn);
              && importThunks == (if slot.Some? then old(importThunks)[rva := slot.value] else old(importThunks))
              && functions.confident == old(functions.confident) + (if slot.Some? then {rva} else {})
    {
      hide InstructionDecoder.Valid, Queue, Refer, RefsXrefs, RefsTargets;
      QueueTwice(Now(), {}, {});
      ReferTwice(Now(), {}, {}, {});
      if !config.collectXrefs { return; }
      ghost var p := Now();
      var refs := ClassifyRefs(insn, image);
      RecordEach(refs, rva);
      AbsorbIndirectJump(insn);
      StepsCombine(p, RefsXrefs(image, rva, refs), RefsTargets(image, refs),
                   if insn.isJmp && !insn.isCall then JumpXrefs(image, insn, insn.operands) else {},
                   if insn.isJmp && !insn.isCall then JumpTargets(image, insn, insn.operands) else {});
      NoteIfThunk(insn, rva);
    }

    method RecordEach(refs: seq<(int, RefKind)>, rva: nat)
      requires Valid() && config.collectXrefs
      modifies this`pending, this`queued, this`xrefs, functions`starts, functions`confident, functions`codeSeeds
      ensures Valid()
      ensures Now() == Queue(Refer(old(Now()), RefsXrefs(image, rva, refs)), RefsTargets(image, refs))
      ensures functions.confident == old(functions.confident)
    {
      hide InstructionDecoder.Valid, Queue, Refer, TableRefs, TableTargets;
      assert refs[0..] == refs;
      ghost var end := Queue(Refer(Now(), RefsXrefs(image, rva, refs)), RefsTargets(image, refs));
      for k := 0 to |refs|
        invariant Valid() && functions.confident == old(functions.confident)
        invariant Queue(Refer(Now(), RefsXrefs(image, rva, refs[k..])), RefsTargets(image, refs[k..])) == end
      {
        ghost var p := Now();
        RecordOne(refs[k], rva);
        assert refs[k..][1..] == refs[k + 1..];
        StepsCombine(p, RefXrefs(image, rva, refs[k]), RefTargets(image, refs[k]),
                     RefsXrefs(image, rva, refs[k + 1..]), RefsTargets(image, refs[k + 1..]));
      }
      QueueTwice(Now(), {}, {});
      ReferTwice(Now(), {}, {}, {});
    }

    method RecordOne(ref: (int, RefKind), rva: nat)
      requires Valid() && config.collectXrefs
      modifies this`pending, this`queued, this`xrefs, functions`starts, functions`confident, functions`codeSeeds
      ensures Valid()
      ensures Now() == Queue(Refer(old(Now()), RefXrefs(image, rva, ref)), RefTargets(image, ref))
      ensures functions.confident == old(functions.confident)
    {
      hide InstructionDecoder.Valid, TableRefs, TableTargets, Queue, Refer;
      ghost var p := Now();
      xrefs := xrefs + {Xref(ref.0, rva, ref.1)};
      assert Now() == Refer(p, {Xref(ref.0, rva, ref.1)}) by { ReferIs(p, {Xref(ref.0, rva, ref.1)}); }
      if ref.1 == IMMEDIATE && IsExec(image, ref.0) {
        Enqueue(ref.0, false, IMMEDIATE_ORIGIN);
        assert RefXrefs(image, rva, ref) == {Xref(ref.0, rva, ref.1)};
      } else if ref.1 == TABLE {
        AbsorbJumpTable(ref.0);
        ReferTwice(p, {Xref(ref.0, rva, ref.1)}, TableRefs(image, ref.0, 0), {});
      } else {
        QueueTwice(Now(), {}, {});
        assert RefXrefs(image, rva, ref) == {Xref(ref.0, rva, ref.1)};
      }
    }

    /** Tables that a jump reaches through a memory operand without registers. */
    method AbsorbIndirectJump(insn: Insn)
      requires Valid() && config.collectXrefs
      modifies this`pending, this`queued, this`xrefs, functions`codeSeeds
      ensures Valid()
      ensures Now() == Queue(Refer(old(Now()),
                                   if insn.isJmp && !insn.isCall then JumpXrefs(image, insn, insn.operands) else {}),
                             if insn.isJmp && !insn.isCall then JumpTargets(image, insn, insn.operands) else {})
    {
      hide InstructionDecoder.Valid, Queue, Refer, TableRefs, TableTargets, MemoryAddress;
      QueueTwice(Now(), {}, {});
      ReferTwice(Now(), {}, {}, {});
      if !insn.isJmp || insn.isCall { return; }
      var ops := insn.operands;
      assert ops[0..] == ops;
      ghost var end := Queue(Refer(Now(), JumpXrefs(image, insn, ops)), JumpTargets(image, insn, ops));
      for k := 0 to |ops|
        invariant Valid()
        invariant Queue(Refer(Now(), JumpXrefs(image, insn, ops[k..])), JumpTargets(image, insn, ops[k..])) == end
      {
        assert ops[k..][1..] == ops[k + 1..];
        ghost var p := Now();
        var address := MemoryAddress(insn, ops[k], image);
        if address.Some? {
          AbsorbJumpTable(address.value);
          StepsCombine(p, TableRefs(image, address.value, 0), TableTargets(image, address.value, 0),
                       JumpXrefs(image, insn, ops[k + 1..]), JumpTargets(image, insn, ops[k + 1..]));
        } else {
          assert JumpXrefs(image, insn, ops[k..]) == JumpXrefs(image, insn, ops[k + 1..]);
          assert JumpTargets(image, insn, ops[k..]) == JumpTargets(image, insn, ops[k + 1..]);
        }
      }
      QueueTwice(Now(), {}, {});
      ReferTwice(Now(), {}, {}, {});
    }

    /** A jump through an import slot is a function entry, and a trusted one. */
    method NoteIfThunk(insn: Insn, rva: nat)
      requires Valid()
      modifies this`importThunks, functions`starts, functions`confident
      ensures Valid() && Now() == old(Now())
      ensures var slot := if insn.isJmp && !insn.isCall then ThunkSlot(image, insn, iatSlots, insn.operands) else None;
              && importThunks == (if slot.Some? then old(importThunks)[rva := slot.value] else old(importThunks))
              && functions.starts == old(functions.starts) + (if slot.Some? then {rva} else {})
              && functions.confident == old(functions.confident) + (if slot.Some? then {rva} else {})
    {
      hide InstructionDecoder.Valid;
      NoSlots(insn, insn.operands);
      if !insn.isJmp || insn.isCall || iatSlots == {} { return; }
      assert insn.operands[0..] == insn.operands;
      for k := 0 to |insn.operands|
        invariant importThunks == old(importThunks) && functions.starts == old(functions.starts)
        invariant functions.confident == old(functions.confident)
        invariant ThunkSlot(image, insn, iatSlots, insn.operands)
                  == ThunkSlot(image, insn, iatSlots, insn.operands[k..])
      {
        assert insn.operands[k..][1..] == insn.operands[k + 1..];
        var slot := MemoryAddress(insn, insn.operands[k], image);
        if slot.Some? && slot.value in iatSlots {
          var isNew := functions.AddStart(rva, true);
          importThunks := importThunks[rva := slot.value];
          return;
        }
      }
    }

    lemma {:induction false} NoSlots(insn: Insn, ops: seq<Operand>)
      ensures iatSlots == {} ==> ThunkSlot(image, insn, iatSlots, ops) == None
    {
      if ops != [] { NoSlots(insn, ops[1..]); }
    }

    // ----- sweeping -----

    /** Resolve an indirect branch, or keep its site. */
    method ResolveIndirect(insn: Insn, rva: nat, tracker: ConstantTracker) returns (target: Option<int>)
      requires Valid() && tracker.image == image
      modifies this`xrefs, this`indirectSites, this`indirectResolved
      ensures Valid() && target == ResolveBranch(image, tracker.regs, insn)
      ensures target.Some? ==> IsExec(image, target.value)
      ensures Now() == match target
                       case None => old(Now()).(sites := old(Now()).sites + {rva})
                       case Some(t) => Refer(old(Now()), {Xref(t, rva, BRANCH)})
    {
      hide InstructionDecoder.Valid;
      target := tracker.Resolve(insn);
      if target.None? {
        indirectSites := indirectSites + {rva};
      } else {
        xrefs := xrefs + {Xref(target.value, rva, BRANCH)};
        indirectResolved := indirectResolved + 1;
      }
    }

    /** Queue what an instruction branches to; the target of a resolved indirect jump is not
        claimed to start a function. */
    method FollowTarget(insn: Insn, target: int, indirect: bool)
      requires Valid()
      modifies this`pending, this`queued
      modifies functions`starts, functions`confident, functions`codeSeeds, functions`callTargets
      ensures Valid() && Now() == Queue(old(Now()), ExecMember(image, target))
      ensures functions.callTargets == old(functions.callTargets) + ExecMember(image, target)
      ensures functions.confident == old(functions.confident) + if insn.isCall then ExecMember(image, target) else {}
      ensures indirect && !insn.isCall ==> functions.starts == old(functions.starts)
    {
      hide InstructionDecoder.Valid, Queue;
      QueueTwice(Now(), {}, {});
      if !IsExec(image, target) { return; }
      var known := functions.AddCallTarget(target);
      var cause := if insn.isCall then CALL_TARGET else JUMP_TARGET;
      if indirect && !insn.isCall {
        EnqueueCodeSeed(target, cause);
      } else {
        SeedBranchTarget(insn, target, cause);
      }
    }

    method FollowBranch(insn: Insn, rva: nat, tracker: ConstantTracker)
      returns (ghost resolved: Option<int>)
      requires Valid() && tracker.image == image && InsnAt(image, rva) == Some(insn)
      modifies this`pending, this`queued, this`xrefs, this`indirectSites, this`indirectResolved
      modifies functions`starts, functions`confident, functions`codeSeeds, functions`callTargets
      ensures Valid()
      ensures Now() == AfterBranch(image, old(Now()), rva, insn, resolved)
      ensures resolved == if IsIndirectBranch(insn) then ResolveBranch(image, tracker.regs, insn) else None
      ensures resolved.Some? ==> IsExec(image, resolved.value)
      ensures functions.callTargets == old(functions.callTargets) + Taken(image, insn, resolved)
      ensures functions.confident
              == old(functions.confident) + if insn.isCall then Taken(image, insn, resolved) else {}
    {
      hide Valid, Queue, Refer, ResolveBranch, IsExec;
      QueueTwice(Now(), {}, {});
      if IsIndirectBranch(insn) { IndirectIsNotDirect(image, insn); }
      resolved := None;
      var target := BranchTarget(insn, image);
      var indirect := target.None? && IsIndirectBranch(insn);
      if indirect {
        target := ResolveIndirect(insn, rva, tracker);
        resolved := target;
      }
      if target.Some? { FollowTarget(insn, target.value, indirect); }
    }

    /** Everything one decoded instruction contributes. */
    method Visit(rva: nat, insn: Insn, origin: Origin, tracker: ConstantTracker, ghost run: seq<Insn>)
      returns (ghost resolved: Option<int>)
      requires decoder.Valid() && decoder.image == image && functions.image == Some(image) && Naming()
      requires forall a: nat :: Recorded(decoder.sizeAt[..], a) <==>
                 (a in functions.claimed[rva := insn.size]
                  && a + functions.claimed[rva := insn.size][a] <= decoder.sizeAt.Length)
      requires tracker.image == image && InsnAt(image, rva) == Some(insn)
      requires SweptTo(image, queued, run, rva) && tracker.regs == ObservedAll(image, run)
      modifies this`pending, this`queued, this`xrefs, this`indirectSites, this`indirectResolved, this`importThunks
      modifies functions`starts, functions`confident, functions`codeSeeds, functions`callTargets, functions`claimed
      modifies decoder`originAt, decoder`overlapBytes, decoder`overlapConflicts, decoder`overlapByOrigin, decoder`claims
      modifies decoder.covered
      ensures Valid()
      ensures CanVisit(image, old(queued), rva, insn, resolved)
      ensures Now() == AfterInsn(image, config, old(Now()), rva, insn, resolved)
      ensures NamesNow() == AfterNames(image, config, iatSlots, old(NamesNow()), rva, insn, resolved)
    {
      hide InstructionDecoder.Valid, Queue, Refer, AfterBranch, SweptTo, ObservedAll, Traced, Untraceable,
           ResolveBranch, Taken, SlotOf, Naming, Recorded, OperandTargets, OperandXrefs, IsExec, InsnAt;
      decoder.MarkCovered(rva, insn.size, origin);
      functions.NoteInstruction(rva, insn.size);
      RecordRefs(insn, rva);
      resolved := FollowBranch(insn, rva, tracker);
      TracedOrNot(image, old(queued), run, rva, insn, resolved);
    }

    method AlreadyDecoded(rva: nat) returns (r: bool)
      requires Valid()
      ensures r ==> rva in functions.claimed
      ensures !r ==> !Recorded(decoder.sizeAt[..], rva)
    {
      r := decoder.IsDecoded(rva);
    }

    /** Decode an address not yet decoded; the record of it is then one ahead of the table. */
    method DecodeNext(rva: nat) returns (r: Option<Insn>)
      requires Valid() && !Recorded(decoder.sizeAt[..], rva)
      modifies decoder`bad, decoder`cache, decoder`instructions, decoder`uses, decoder.sizeAt
      ensures decoder.Valid() && r == InsnAt(image, rva)
      ensures r.None? ==> Valid()
      ensures r.Some? ==> Naming() && DisassemblerOk(image) && forall a: nat :: Recorded(decoder.sizeAt[..], a) <==>
                 (a in functions.claimed[rva := r.value.size]
                  && a + functions.claimed[rva := r.value.size][a] <= decoder.sizeAt.Length)
    {
      hide Conserved, InstructionDecoder.CacheOk;
      ghost var was := decoder.sizeAt[..];
      r := decoder.DecodeOne(rva);
    }

    /** What is claimed without being recorded runs past the image. */
    lemma NotRecorded(seeds: set<nat>, rest: set<nat>, addr: nat)
      requires Valid() && Sound(image, config, seeds, Now(), {addr} + rest) && !Recorded(decoder.sizeAt[..], addr)
      ensures addr in functions.claimed ==>
                && RunsPast(image, addr) && functions.claimed[addr] == InsnAt(image, addr).value.size
                && addr + functions.claimed[addr] > Span(image)
    {
      hide Reach, Justified, DirectTarget, OperandTargets, OperandXrefs, IsExec;
      assert decoder.sizeAt.Length == Span(image);
    }

    /** One step of a sweep: nothing if the address was decoded before or does not decode,
        else the instruction visited there. */
    method SweepOne(addr: nat, origin: Origin, tracker: ConstantTracker, ghost run: seq<Insn>,
                    ghost seeds: set<nat>, ghost rest: set<nat>, ghost trusted: set<nat>)
      returns (insn: Option<Insn>)
      requires Named(trusted) && Valid() && Sound(image, config, seeds, Now(), {addr} + rest)
      requires !budgetExhausted ==> Complete(image, seeds, Now(), {addr} + rest)
      requires tracker.image == image && SweptTo(image, queued, run, addr) && tracker.regs == ObservedAll(image, run)
      modifies this`pending, this`queued, this`xrefs, this`indirectSites, this`indirectResolved, this`importThunks
      modifies this`undecodable, tracker
      modifies functions`starts, functions`confident, functions`codeSeeds, functions`callTargets, functions`claimed
      modifies decoder, decoder.sizeAt, decoder.covered
      ensures Named(trusted) && Valid() && OnlyQueued(old(Now()), Now())
      ensures Sound(image, config, seeds, Now(), Ahead(addr, insn) + rest)
      ensures !budgetExhausted ==> Complete(image, seeds, Now(), Ahead(addr, insn) + rest)
      ensures insn.Some? && FallsThrough(insn.value) ==>
                SweptTo(image, queued, run + [insn.value], addr + insn.value.size)
                && tracker.regs == ObservedAll(image, run + [insn.value])
      ensures insn.None? ==> functions.claimed == old(functions.claimed)
      ensures insn.Some? ==> ClaimsOne(image, old(functions.claimed), functions.claimed, addr, insn.value)
    {
      hide NamesOk, AfterNames, ClaimsOne, RunsPast, InstructionDecoder.Valid, Recording, Naming, Sound, Complete,
           AfterInsn, SweptTo, CanVisit, DisassemblerOk, ObservedAll, Observed, InsnAt, Visited, FallsThrough;
      ghost var p := Now();
      assert {} + rest == rest;
      var decoded := AlreadyDecoded(addr);
      if decoded {
        CurrentIsVisited(image, config, seeds, p, addr, rest, budgetExhausted);
        return None;
      }
      ghost var before := functions.claimed;
      NotRecorded(seeds, rest, addr);
      insn := DecodeNext(addr);
      if insn.None? {
        undecodable := undecodable + {addr};
        UndecodableIsVisited(image, config, seeds, p, addr, rest, budgetExhausted);
        return;
      }
      ghost var names := NamesNow();
      ghost var resolved := Visit(addr, insn.value, origin, tracker, run);
      VisitNames(image, config, iatSlots, trusted, p, names, addr, insn.value, resolved);
      VisitedOne(image, config, seeds, p, rest, addr, insn.value, resolved, budgetExhausted);
      ClaimedOne(image, config, p, addr, insn.value, resolved);
      // after the branch has been resolved: a branch makes the tracker forget
      tracker.Observe(insn.value);
      if FallsThrough(insn.value) { RunExtends(image, p.queued, queued, run, addr, insn.value); }
    }

    /** Follow control flow forward, by as many instructions as are granted at most, until it ends,
        reaches decoded code, or fails to decode. What is left of the grant comes back. */
    method FollowFrom(start: nat, origin: Origin, granted: nat, ghost seeds: set<nat>, ghost rest: set<nat>,
                      ghost trusted: set<nat>)
      returns (budget: nat, ghost path: seq<nat>)
      requires Named(trusted) && Valid() && start in queued && Sound(image, config, seeds, Now(), {start} + rest)
      requires !budgetExhausted ==> Complete(image, seeds, Now(), {start} + rest)
      modifies this`pending, this`queued, this`xrefs, this`indirectSites, this`indirectResolved, this`importThunks
      modifies this`undecodable
      modifies functions`starts, functions`confident, functions`codeSeeds, functions`callTargets, functions`claimed
      modifies decoder, decoder.sizeAt, decoder.covered
      ensures Named(trusted) && Valid() && Sound(image, config, seeds, Now(), rest)
      ensures !budgetExhausted && budget > 0 ==> Complete(image, seeds, Now(), rest)
      ensures OnlyQueued(old(Now()), Now())
      ensures budget <= granted
      ensures Spends(image, old(functions.claimed), functions.claimed, granted - budget, path)
    {
      hide Named, Spends, OnlyQueued, ClaimsOne, LeadsTo, Sound, Complete, AfterInsn, SweptTo, Valid, ObservedAll,
           Observed, InsnAt, Visited, FallsThrough, Ahead;
      budget := granted;
      var tracker := new ConstantTracker(image);
      var addr: nat := start;
      ghost var run: seq<Insn> := [];
      ghost var current: set<nat> := {start};
      path := [];
      EmptyRun(image, queued, addr);
      NothingQueued(Now());
      NothingSpent(image, functions.claimed, start);
      while budget > 0
        invariant budget <= granted && Named(trusted)
        invariant Spends(image, old(functions.claimed), functions.claimed, granted - budget, path)
        invariant LeadsTo(image, path, addr)
        invariant Valid() && current == {addr} && Sound(image, config, seeds, Now(), current + rest)
        invariant !budgetExhausted ==> Complete(image, seeds, Now(), current + rest)
        invariant fresh(tracker) && tracker.image == image && tracker.regs == ObservedAll(image, run)
        invariant SweptTo(image, queued, run, addr)
        invariant OnlyQueued(old(Now()), Now())
      {
        ghost var p := Now();
        var insn := SweepOne(addr, origin, tracker, run, seeds, rest, trusted);
        QueuedTwice(old(Now()), p, Now());
        current := Ahead(addr, insn);
        AheadIs(addr, insn);
        if insn.None? { break; }
        SpendOne(image, old(functions.claimed), p.claimed, functions.claimed, granted - budget, path, addr, insn.value);
        path := path + [addr];
        budget := budget - 1;
        if insn.value.isRet { break; }
        if insn.value.isJmp && !insn.value.isCond { break; }
        run := run + [insn.value];
        addr := addr + insn.value.size;
      }
      assert {} + rest == rest;
      SoundShrinks(image, config, seeds, Now(), current + rest, rest);
    }

    /** Follow control flow from an address within what the limits leave; to come to the end of that
        is to run out, and is reported. */
    method SweepFrom(start: nat, origin: Origin, ghost seeds: set<nat>, ghost rest: set<nat>, ghost trusted: set<nat>)
      requires Named(trusted) && Valid() && start in queued && Sound(image, config, seeds, Now(), {start} + rest)
      requires !budgetExhausted ==> Complete(image, seeds, Now(), {start} + rest)
      requires Accounts(image, config, functions.claimed, budgetLeft, budgetExhausted)
      modifies this`pending, this`queued, this`xrefs, this`indirectSites, this`indirectResolved, this`importThunks
      modifies this`undecodable, this`budgetLeft, this`budgetExhausted
      modifies functions`starts, functions`confident, functions`codeSeeds, functions`callTargets, functions`claimed
      modifies decoder, decoder.sizeAt, decoder.covered
      ensures Named(trusted) && Valid() && Sound(image, config, seeds, Now(), rest)
      ensures !budgetExhausted ==> Complete(image, seeds, Now(), rest)
      ensures old(budgetExhausted) ==> budgetExhausted
      ensures OnlyQueued(old(Now()), Now())
      ensures budgetLeft <= old(budgetLeft)
      ensures Accounts(image, config, functions.claimed, budgetLeft, budgetExhausted)
      ensures |functions.claimed| <= |old(functions.claimed)| + config.maxInstructions
    {
      hide Named, Spends, OnlyQueued, Sound, Complete, Valid, Accounts;
      var granted := Min(config.maxInstructions, budgetLeft);
      ghost var was := functions.claimed;
      var budget, path := FollowFrom(start, origin, granted, seeds, rest, trusted);
      AllSpent(image, config, was, functions.claimed, budgetLeft, budgetExhausted, granted, budget, path);
      budgetLeft := budgetLeft - (granted - budget);
      if budget <= 0 { budgetExhausted := true; }
    }

    // ----- the run -----

    method SeedAll(confident: seq<Item>, tentative: seq<Item>)
      requires Valid() && Now() == Progress({}, {}, map[], {}, {}, {})
      modifies this`pending, this`queued, functions`starts, functions`confident, functions`codeSeeds
      ensures Valid()
      ensures Now() == Queue(Progress({}, {}, map[], {}, {}, {}),
                             ExecSeeds(image, confident) + ExecSeeds(image, tentative))
      ensures functions.confident == old(functions.confident) + ExecSeeds(image, confident)
    {
      hide InstructionDecoder.Valid, Queue, ExecSeeds;
      ghost var p := Now();
      QueueTwice(p, {}, {});
      ghost var conf := functions.confident;
      NoSeeds(image);
      assert confident[..0] == [] && tentative[..0] == [];
      assert conf + {} == conf;
      for k := 0 to |confident|
        invariant Valid() && Now() == Queue(p, ExecSeeds(image, confident[..k]))
        invariant functions.confident == conf + ExecSeeds(image, confident[..k])
      {
        Enqueue(confident[k].rva, true, confident[k].origin);
        OneMoreSeed(image, confident, k);
        QueueTwice(p, ExecSeeds(image, confident[..k]), ExecMember(image, confident[k].rva));
      }
      assert confident[..|confident|] == confident;
      ghost var q := Now();
      QueueTwice(q, {}, {});
      for k := 0 to |tentative|
        invariant Valid() && Now() == Queue(q, ExecSeeds(image, tentative[..k]))
        invariant functions.confident == conf + ExecSeeds(image, confident)
      {
        EnqueueCodeSeed(tentative[k].rva, tentative[k].origin);
        OneMoreSeed(image, tentative, k);
        QueueTwice(q, ExecSeeds(image, tentative[..k]), ExecMember(image, tentative[k].rva));
      }
      assert tentative[..|tentative|] == tentative;
      QueueTwice(p, ExecSeeds(image, confident), ExecSeeds(image, tentative));
    }

    /** Sweep from everything in a batch, or stop when nothing is left to spend. */
    method SweepBatch(batch: seq<Item>, ghost seeds: set<nat>, ghost trusted: set<nat>)
      requires Named(trusted) && Valid() && pending == [] && Sound(image, config, seeds, Now(), Waiting(batch))
      requires Waiting(batch) <= queued
      requires !budgetExhausted ==> Complete(image, seeds, Now(), Waiting(batch))
      requires Accounts(image, config, functions.claimed, budgetLeft, budgetExhausted)
      modifies this, functions, decoder, decoder.sizeAt, decoder.covered
      ensures Named(trusted) && Valid() && Sound(image, config, seeds, Now(), {})
      ensures !budgetExhausted ==> Complete(image, seeds, Now(), {})
      ensures old(queued) <= queued && Waiting(pending) !! old(queued)
      ensures old(budgetExhausted) ==> budgetExhausted
      ensures Accounts(image, config, functions.claimed, budgetLeft, budgetExhausted)
    {
      hide Named, Accounts, InstructionDecoder.Valid, Recording, Naming, Sound, Complete;
      assert batch[0..] == batch;
      ghost var q := queued;
      for k := 0 to |batch|
        invariant Named(trusted) && Valid() && Sound(image, config, seeds, Now(), Waiting(batch[k..]))
        invariant !budgetExhausted ==> Complete(image, seeds, Now(), Waiting(batch[k..]))
        invariant q <= queued && Waiting(pending) !! q
        invariant old(budgetExhausted) ==> budgetExhausted
        invariant Accounts(image, config, functions.claimed, budgetLeft, budgetExhausted)
      {
        if budgetLeft <= 0 {
          ghost var p := Now();
          NothingLeft(image, config, functions.claimed, budgetLeft, budgetExhausted);
          NothingWaits(image, config, seeds, p, Waiting(batch[k..]));
          budgetExhausted := true;
          pending := [];
          assert Waiting([]) == {} && Now() == p.(waiting := {});
          return;
        }
        WaitingSplit(batch, k);
        WaitingHas(batch, k);
        ghost var p := Now();
        SweepFrom(batch[k].rva, batch[k].origin, seeds, Waiting(batch[k + 1..]), trusted);
      }
      assert batch[|batch|..] == [] && Waiting([]) == {};
    }

    /** Rounds until nothing is pending. There are only so many executable addresses, so there
        are only so many rounds. */
    method SweepToFixpoint(ghost seeds: set<nat>, ghost trusted: set<nat>)
      requires Named(trusted) && Valid() && Sound(image, config, seeds, Now(), {})
      requires !budgetExhausted ==> Complete(image, seeds, Now(), {})
      requires Accounts(image, config, functions.claimed, budgetLeft, budgetExhausted)
      modifies this, functions, decoder, decoder.sizeAt, decoder.covered
      ensures Named(trusted) && Valid() && Sound(image, config, seeds, Now(), {}) && pending == []
      ensures !budgetExhausted ==> Complete(image, seeds, Now(), {})
      ensures old(budgetExhausted) ==> budgetExhausted
      ensures Accounts(image, config, functions.claimed, budgetLeft, budgetExhausted)
    {
      hide Named, Accounts, Valid, Sound, Complete, Waiting, ExecSet;
      sweepRounds := 0;
      NoneWaiting();
      QueuedIsBounded(image, config, seeds, Now());
      while pending != []
        invariant Named(trusted) && Valid() && Sound(image, config, seeds, Now(), {})
        invariant !budgetExhausted ==> Complete(image, seeds, Now(), {})
        invariant old(budgetExhausted) ==> budgetExhausted
        invariant queued <= ExecSet(image)
        invariant Accounts(image, config, functions.claimed, budgetLeft, budgetExhausted)
        decreases |ExecSet(image) - queued|, |pending|
      {
        sweepRounds := sweepRounds + 1;
        var batch := pending;
        ghost var q := queued;
        TakeBatch(image, config, seeds, Now(), budgetExhausted);
        WaitingIsQueued(image, config, seeds, Now(), {});
        pending := [];
        SweepBatch(batch, seeds, trusted);
        RoundAdds(image, config, seeds, Now(), pending, q);
      }
    }

    /** Demote what turned out not to start a function, once every trusted start is known. */
    method Prune()
      requires Valid()
      modifies functions`starts, functions`codeSeeds, functions`sorted, functions`extentsCache
      ensures Valid() && functions.Coherent() && Now() == old(Now())
      ensures forall s :: s in functions.starts && s !in functions.confident ==>
                !Inside(functions.confident, functions.claimed, s)
      ensures HaveBytes(functions.claimed) ==> TrustedExtents(functions.starts, functions.confident, functions.claimed)
    {
      hide InstructionDecoder.Valid, Inside, InExtent, Demoted, HaveBytes;
      ghost var was, gone := functions.starts, Demoted(functions.starts, functions.confident, functions.claimed);
      PruningIsExact(functions.starts, functions.confident, functions.claimed);
      var demoted := functions.PruneStartsInsideFunctions();
      functions.Invalidate();
      forall c, b | c in functions.confident && HaveBytes(functions.claimed)
        ensures InExtent(functions.starts, functions.claimed, c, b)
                <==> InExtent(functions.confident, functions.claimed, c, b) {
        TrustedExtentsStand(was, functions.confident, functions.claimed, c, b);
      }
    }

    /** Seed, sweep to a fixpoint, prune. Nothing the run reports is made up; and unless it
        says that a budget ran out, what it visited is the least set that has the executable
        seeds and is closed under the edges it follows. */
    method Run(confident: seq<Item>, tentative: seq<Item>)
      requires Valid() && Now() == Progress({}, {}, map[], {}, {}, {}) && !budgetExhausted
      requires budgetLeft == config.maxTotalInstructions && NamesNow() == Names({}, {}, map[], [])
      modifies this, functions, decoder, decoder.sizeAt, decoder.covered
      ensures Named(ExecSeeds(image, confident)) && CoversVisited(decoder.covered[..], functions.claimed)
      ensures Valid() && Sound(image, config, ExecSeeds(image, confident) + ExecSeeds(image, tentative), Now(), {})
      ensures !budgetExhausted ==>
                IsFixpoint(GraphOf(image, config, Now()),
                           ExecSeeds(image, confident) + ExecSeeds(image, tentative), Visited(Now()))
      ensures functions.starts + functions.codeSeeds == queued + importThunks.Keys
      ensures functions.Coherent() && functions.confident <= functions.starts
      ensures forall s :: s in functions.starts && s !in functions.confident ==>
                !Inside(functions.confident, functions.claimed, s)
      ensures TrustedExtents(functions.starts, functions.confident, functions.claimed)
      ensures BudgetKept(image, config, functions.claimed, budgetExhausted)
    {
      hide InstructionDecoder.Valid, Recording, Sound, Complete, Inside, IsFixpoint, TrustedExtents, NamesOk,
           CoversVisited;
      SeedAll(confident, tentative);
      SeededIsSound(image, config, confident, tentative);
      NothingNamed(image, config, iatSlots, ExecSeeds(image, confident));
      assert NamesNow() == Names({}, ExecSeeds(image, confident), map[], []);
      Finish(ExecSeeds(image, confident) + ExecSeeds(image, tentative), ExecSeeds(image, confident));
    }

    lemma CoveredBytes(trusted: set<nat>)
      requires Valid() && Named(trusted)
      ensures CoversVisited(decoder.covered[..], functions.claimed)
    {
      hide InstructionDecoder.CacheOk, Conserved, ClaimsOk, CoversVisited;
      ClaimsCover(decoder.covered[..], decoder.overlapBytes, decoder.overlapByOrigin, decoder.claims,
                  functions.claimed);
    }

    lemma ValidImage()
      requires Valid()
      ensures DisassemblerOk(image)
    {
    }

    method Finish(ghost seeds: set<nat>, ghost trusted: set<nat>)
      requires Named(trusted) && Valid() && !budgetExhausted && functions.claimed == map[]
      requires budgetLeft == config.maxTotalInstructions
      requires Sound(image, config, seeds, Now(), {}) && Complete(image, seeds, Now(), {})
      modifies this, functions, decoder, decoder.sizeAt, decoder.covered
      ensures Named(trusted) && Valid() && Sound(image, config, seeds, Now(), {})
      ensures CoversVisited(decoder.covered[..], functions.claimed)
      ensures !budgetExhausted ==> IsFixpoint(GraphOf(image, config, Now()), seeds, Visited(Now()))
      ensures functions.Coherent()
      ensures forall s :: s in functions.starts && s !in functions.confident ==>
                !Inside(functions.confident, functions.claimed, s)
      ensures TrustedExtents(functions.starts, functions.confident, functions.claimed)
      ensures BudgetKept(image, config, functions.claimed, budgetExhausted)
    {
      hide Named, CoversVisited, Valid, Sound, Complete, Inside, IsFixpoint, TrustedExtents, GraphOf, Visited,
           DisassemblerOk, HaveBytes,
           Waiting, FunctionTable.Coherent, Accounts, BudgetKept;
      NothingClaimed(image, config);
      SweepToFixpoint(seeds, trusted);
      ValidImage();
      BudgetsMean(image, config, functions.claimed, budgetLeft, budgetExhausted);
      CoveredBytes(trusted);
      NoneWaiting();
      Settled(image, config, seeds, Now(), budgetExhausted);
      Prune();
    }
  }

  // ----- the budgets -----

  /** An instruction at the address does not end within the image. */
  predicate RunsPast(image: Image, a: nat) {
    InsnAt(image, a).Some? && a + InsnAt(image, a).value.size > Span(image)
  }

  ghost predicate EndsInside(image: Image) { forall a: nat :: !RunsPast(image, a) }

  /** An instruction is claimed that was not claimed before, unless it runs past the image. */
  ghost predicate ClaimsOne(image: Image, claimed: Sizes, claimed': Sizes, a: nat, insn: Insn) {
    InsnAt(image, a) == Some(insn) && claimed' == claimed[a := insn.size] && (a in claimed ==> RunsPast(image, a))
  }

  lemma ClaimedOne(image: Image, config: Config, p: Progress, a: nat, insn: Insn, resolved: Option<int>)
    requires InsnAt(image, a) == Some(insn) && (a in p.claimed ==> RunsPast(image, a))
    ensures ClaimsOne(image, p.claimed, AfterInsn(image, config, p, a, insn, resolved).claimed, a, insn)
  {
    hide InsnAt, RunsPast, OperandTargets, OperandXrefs, DirectTarget;
  }

  /** Claimed instructions, each behind the one before. */
  ghost predicate RunThrough(image: Image, claimed: set<nat>, run: seq<nat>) {
    && (forall i :: 0 <= i < |run| ==> run[i] in claimed && InsnAt(image, run[i]).Some?)
    && forall i :: 0 <= i < |run| - 1 ==> LeadsOn(image, run[i], run[i + 1])
  }

  predicate LeadsOn(image: Image, a: nat, b: nat) {
    InsnAt(image, a).Some? && FallsThrough(InsnAt(image, a).value) && b == a + InsnAt(image, a).value.size
  }

  ghost predicate LeadsTo(image: Image, run: seq<nat>, a: nat) {
    run != [] ==> LeadsOn(image, run[|run| - 1], a)
  }

  /** A straight run of `n` instructions is claimed. */
  ghost predicate LongRun(image: Image, claimed: set<nat>, n: nat) {
    exists run :: |run| == n && RunThrough(image, claimed, run)
  }

  /** Every claim is paid for, once. Exhausted means that the whole was spent, or that some sweep
      came to its own limit; and once the whole is spent it is reported. */
  ghost predicate Accounts(image: Image, config: Config, claimed: Sizes, left: nat, exhausted: bool) {
    && left <= config.maxTotalInstructions && |claimed| <= config.maxTotalInstructions - left
    && (EndsInside(image) ==> |claimed| == config.maxTotalInstructions - left)
    && (exhausted ==> left == 0 || LongRun(image, claimed.Keys, config.maxInstructions))
    && (!exhausted ==> left == config.maxTotalInstructions || left > 0)
  }

  /** In the middle of a sweep that has spent `n` on the instructions of a run. */
  ghost predicate Spends(image: Image, before: Sizes, claimed: Sizes, n: int, run: seq<nat>) {
    && n == |run| && RunThrough(image, claimed.Keys, run) && before.Keys <= claimed.Keys
    && |claimed| <= |before| + n && (EndsInside(image) ==> |claimed| == |before| + n)
  }

  lemma NothingSpent(image: Image, claimed: Sizes, start: nat)
    ensures Spends(image, claimed, claimed, 0, []) && LeadsTo(image, [], start)
  {
  }

  lemma SpendOne(image: Image, before: Sizes, claimed: Sizes, claimed': Sizes, n: int, run: seq<nat>, a: nat,
                 insn: Insn)
    requires Spends(image, before, claimed, n, run) && LeadsTo(image, run, a)
    requires ClaimsOne(image, claimed, claimed', a, insn)
    ensures Spends(image, before, claimed', n + 1, run + [a])
    ensures FallsThrough(insn) ==> LeadsTo(image, run + [a], a + insn.size)
  {
    hide RunThrough, LeadsTo, InsnAt, FallsThrough;
    assert claimed'.Keys == claimed.Keys + {a};
    SizeOf(claimed);
    SizeOf(claimed');
    RunOnward(image, claimed.Keys, run, a, insn);
  }

  lemma RunOnward(image: Image, claimed: set<nat>, run: seq<nat>, a: nat, insn: Insn)
    requires RunThrough(image, claimed, run) && LeadsTo(image, run, a) && InsnAt(image, a) == Some(insn)
    ensures RunThrough(image, claimed + {a}, run + [a])
    ensures FallsThrough(insn) ==> LeadsTo(image, run + [a], a + insn.size)
  {
    hide InsnAt, FallsThrough;
  }

  lemma SizeOf(claimed: Sizes)
    ensures |claimed| == |claimed.Keys|
  {
  }

  lemma AllSpent(image: Image, config: Config, before: Sizes, claimed: Sizes, left: nat, exhausted: bool, granted: nat,
                 budget: nat, run: seq<nat>)
    requires Accounts(image, config, before, left, exhausted) && granted == Min(config.maxInstructions, left)
    requires budget <= granted && Spends(image, before, claimed, granted - budget, run)
    ensures Accounts(image, config, claimed, left - (granted - budget), exhausted || budget == 0)
    ensures |claimed| <= |before| + config.maxInstructions
  {
    hide RunThrough;
    if LongRun(image, before.Keys, config.maxInstructions) {
      LongRunStays(image, before.Keys, claimed.Keys, config.maxInstructions);
    }
  }

  lemma NothingLeft(image: Image, config: Config, claimed: Sizes, left: nat, exhausted: bool)
    requires Accounts(image, config, claimed, left, exhausted) && left == 0
    ensures Accounts(image, config, claimed, left, true)
  {
  }

  lemma LongRunStays(image: Image, claimed: set<nat>, claimed': set<nat>, n: nat)
    requires LongRun(image, claimed, n) && claimed <= claimed'
    ensures LongRun(image, claimed', n)
  {
    var run :| |run| == n && RunThrough(image, claimed, run);
    assert RunThrough(image, claimed', run);
  }

  /** A run goes up, so it has as many addresses as instructions. */
  lemma {:induction false} RunIsLarge(image: Image, claimed: set<nat>, run: seq<nat>) returns (addrs: set<nat>)
    requires DisassemblerOk(image) && RunThrough(image, claimed, run)
    ensures addrs <= claimed && |addrs| == |run|
    ensures forall a :: a in addrs ==> run != [] && a <= run[|run| - 1]
    decreases |run|
  {
    hide InsnAt, FallsThrough;
    addrs := {};
    if run != [] {
      var n := |run| - 1;
      assert RunThrough(image, claimed, run[..n]) by {
        forall i | 0 <= i < n - 1 ensures LeadsOn(image, run[..n][i], run[..n][i + 1]) {
          assert LeadsOn(image, run[i], run[i + 1]);
        }
      }
      addrs := RunIsLarge(image, claimed, run[..n]);
      if n > 0 {
        assert LeadsOn(image, run[n - 1], run[n]);
        HasBytes(image, run[n - 1]);
      }
      addrs := addrs + {run[n]};
    }
  }

  lemma HasBytes(image: Image, a: nat)
    requires DisassemblerOk(image) && InsnAt(image, a).Some?
    ensures InsnAt(image, a).value.size >= 1
  {
  }

  /** What a run may visit, and when it may give up: no more than the whole limit is visited;
      exhausted means that the whole was spent, which on an image in which no instruction runs
      past the end is that many visited, or that a straight run as long as a sweep may be was; and
      a run that spent the whole says so. */
  ghost predicate BudgetKept(image: Image, config: Config, claimed: Sizes, exhausted: bool) {
    && |claimed| <= config.maxTotalInstructions
    && (exhausted ==>
          || (EndsInside(image) ==> |claimed| == config.maxTotalInstructions)
          || (LongRun(image, claimed.Keys, config.maxInstructions) && |claimed| >= config.maxInstructions))
    && (!exhausted ==> claimed == map[] || |claimed| < config.maxTotalInstructions)
  }

  lemma NothingClaimed(image: Image, config: Config)
    ensures Accounts(image, config, map[], config.maxTotalInstructions, false)
  {
  }

  lemma BudgetsMean(image: Image, config: Config, claimed: Sizes, left: nat, exhausted: bool)
    requires DisassemblerOk(image) && Accounts(image, config, claimed, left, exhausted)
    ensures BudgetKept(image, config, claimed, exhausted)
  {
    hide DisassemblerOk;
    if LongRun(image, claimed.Keys, config.maxInstructions) {
      var run :| |run| == config.maxInstructions && RunThrough(image, claimed.Keys, run);
      var addrs := RunIsLarge(image, claimed.Keys, run);
      Subset(addrs, claimed.Keys);
      SizeOf(claimed);
    }
  }

  lemma {:induction false} Subset(a: set<nat>, b: set<nat>)
    requires a <= b
    ensures |a| <= |b|
  {
    assert b == a + (b - a);
  }

  /** Trusted functions have the extents they have among themselves. */
  ghost predicate TrustedExtents(starts: set<nat>, confident: set<nat>, claimed: Sizes) {
    forall c, b :: c in confident ==> (InExtent(starts, claimed, c, b) <==> InExtent(confident, claimed, c, b))
  }

  lemma NoneWaiting()
    ensures Waiting([]) == {}
  {
  }

  lemma Settled(image: Image, config: Config, seeds: set<nat>, p: Progress, exhausted: bool)
    requires Sound(image, config, seeds, p, {}) && (!exhausted ==> Complete(image, seeds, p, {})) && p.waiting == {}
    requires DisassemblerOk(image)
    ensures !exhausted ==> IsFixpoint(GraphOf(image, config, p), seeds, Visited(p))
    ensures HaveBytes(p.claimed)
  {
    hide Sound, Complete, IsFixpoint, DisassemblerOk;
    SoundHaveBytes(image, config, seeds, p);
    if !exhausted { DoneIsFixpoint(image, config, seeds, p); }
  }

  lemma SoundHaveBytes(image: Image, config: Config, seeds: set<nat>, p: Progress)
    requires Sound(image, config, seeds, p, {}) && DisassemblerOk(image)
    ensures HaveBytes(p.claimed)
  {
    hide Reach, Justified, IsExec;
    forall a | a in p.claimed ensures p.claimed[a] > 0 { assert Followed(image, config, p, a); }
  }

  lemma WaitingAppend(items: seq<Item>, item: Item)
    ensures Waiting(items + [item]) == Waiting(items) + {item.rva}
  {
  }

  lemma WaitingHas(items: seq<Item>, k: nat)
    requires k < |items|
    ensures items[k].rva in Waiting(items)
  {
  }

  lemma NoSeeds(image: Image)
    ensures ExecSeeds(image, []) == {}
  {
  }

  lemma OneMoreSeed(image: Image, items: seq<Item>, k: nat)
    requires k < |items|
    ensures ExecSeeds(image, items[..k + 1]) == ExecSeeds(image, items[..k]) + ExecMember(image, items[k].rva)
  {
  }

  lemma WaitingSplit(items: seq<Item>, k: nat)
    requires k < |items|
    ensures Waiting(items[k..]) == {items[k].rva} + Waiting(items[k + 1..])
  {
  }

  lemma SeededIsSound(image: Image, config: Config, confident: seq<Item>, tentative: seq<Item>)
    ensures var seeds := ExecSeeds(image, confident) + ExecSeeds(image, tentative);
            var p := Queue(Progress({}, {}, map[], {}, {}, {}), seeds);
            Sound(image, config, seeds, p, {}) && Complete(image, seeds, p, {})
  {
    hide Reach;
    var seeds := ExecSeeds(image, confident) + ExecSeeds(image, tentative);
    var p := Queue(Progress({}, {}, map[], {}, {}, {}), seeds);
    forall a | a in seeds ensures Reach(GraphOf(image, config, p), seeds, a) {
      ReachSeed(GraphOf(image, config, p), seeds, a);
    }
  }

  /** Dropping what waits loses completeness, never soundness. */
  lemma NothingWaits(image: Image, config: Config, seeds: set<nat>, p: Progress, current: set<nat>)
    requires Sound(image, config, seeds, p, current)
    ensures Sound(image, config, seeds, p.(waiting := {}), {})
  {
    SameButWaiting(image, config, seeds, p, p.(waiting := {}), current, {});
  }

  lemma TakeBatch(image: Image, config: Config, seeds: set<nat>, p: Progress, cut: bool)
    requires Sound(image, config, seeds, p, {})
    requires !cut ==> Complete(image, seeds, p, {})
    ensures Sound(image, config, seeds, p.(waiting := {}), p.waiting)
    ensures !cut ==> Complete(image, seeds, p.(waiting := {}), p.waiting)
  {
    hide Sound;
    assert p.waiting <= p.queued by { WaitingIsQueued(image, config, seeds, p, {}); }
    SameButWaiting(image, config, seeds, p, p.(waiting := {}), {}, p.waiting);
  }

  lemma WaitingIsQueued(image: Image, config: Config, seeds: set<nat>, p: Progress, current: set<nat>)
    requires Sound(image, config, seeds, p, current)
    ensures p.waiting <= p.queued
  {
  }

  lemma SameButWaiting(image: Image, config: Config, seeds: set<nat>, p: Progress, p': Progress,
                       current: set<nat>, now: set<nat>)
    requires Sound(image, config, seeds, p, current) && p' == p.(waiting := {})
    requires now <= current + p.queued
    ensures Sound(image, config, seeds, p', now)
  {
    hide Reach, Traced, OperandTargets, OperandXrefs, DirectTarget, IsExec;
    assert GraphOf(image, config, p') == GraphOf(image, config, p) && Visited(p') == Visited(p);
    forall a | a in p.claimed ensures Followed(image, config, p', a) {
      assert Followed(image, config, p, a);
      FollowedGrows(image, config, p, p', a);
    }
    forall x | x in p.xrefs ensures Justified(image, p', x) { JustifiedGrows(image, p, p', x); }
  }

  lemma QueuedIsBounded(image: Image, config: Config, seeds: set<nat>, p: Progress)
    requires Sound(image, config, seeds, p, {})
    ensures p.queued <= ExecSet(image)
  {
  }

  lemma StrictlyMore(all: set<nat>, q: set<nat>, q': set<nat>, a: nat)
    requires q <= q' <= all && a in q' && a !in q
    ensures |all - q'| < |all - q|
  {
    NoMore(all - {a}, q, q' - {a});
    assert all - q == (all - {a} - q) + {a};
    assert all - q' == all - {a} - (q' - {a});
  }

  /** A round that leaves something pending has queued something new. */
  lemma RoundAdds(image: Image, config: Config, seeds: set<nat>, p: Progress, pending: seq<Item>, q: set<nat>)
    requires Sound(image, config, seeds, p, {}) && p.waiting == Waiting(pending)
    requires q <= p.queued && Waiting(pending) !! q
    ensures p.queued <= ExecSet(image) && |ExecSet(image) - p.queued| <= |ExecSet(image) - q|
    ensures pending != [] ==> |ExecSet(image) - p.queued| < |ExecSet(image) - q|
  {
    hide Sound, ExecSet;
    QueuedIsBounded(image, config, seeds, p);
    NoMore(ExecSet(image), q, p.queued);
    if pending != [] {
      WaitingIsQueued(image, config, seeds, p, {});
      assert pending[0].rva in Waiting(pending);
      StrictlyMore(ExecSet(image), q, p.queued, pending[0].rva);
    }
  }

  lemma NoMore(all: set<nat>, q: set<nat>, q': set<nat>)
    requires q <= q'
    ensures |all - q'| <= |all - q|
  {
    assert all - q == (all - q') + ((all - q) * q');
  }

  /** Where the straight line goes on after an instruction, if it does. */
  function Ahead(addr: nat, insn: Option<Insn>): set<nat> {
    if insn.Some? && FallsThrough(insn.value) then {addr + insn.value.size} else {}
  }

  lemma AheadIs(addr: nat, insn: Option<Insn>)
    ensures insn.Some? ==>
              (FallsThrough(insn.value) <==> !insn.value.isRet && !(insn.value.isJmp && !insn.value.isCond))
    ensures Ahead(addr, insn)
            == if insn.Some? && FallsThrough(insn.value) then {addr + insn.value.size} else {}
  {
  }

  /** Queued addresses stay queued, and only newly queued ones join those waiting. */
  ghost predicate OnlyQueued(p: Progress, p': Progress) {
    p.queued <= p'.queued && p'.waiting <= p.waiting + (p'.queued - p.queued)
  }

  lemma NothingQueued(p: Progress)
    ensures OnlyQueued(p, p)
  {
  }

  lemma QueuedTwice(p: Progress, p': Progress, p'': Progress)
    requires OnlyQueued(p, p') && OnlyQueued(p', p'')
    ensures OnlyQueued(p, p'')
  {
  }

  lemma EmptyRun(image: Image, queued: set<nat>, rva: nat)
    requires rva in queued
    ensures SweptTo(image, queued, [], rva) && ObservedAll(image, []) == map[]
  {
  }

  lemma RunExtends(image: Image, queued: set<nat>, queued': set<nat>, run: seq<Insn>, rva: nat, insn: Insn)
    requires SweptTo(image, queued, run, rva) && queued <= queued'
    requires InsnAt(image, rva) == Some(insn) && FallsThrough(insn) && DisassemblerOk(image)
    ensures SweptTo(image, queued', run + [insn], rva + insn.size)
    ensures ObservedAll(image, run + [insn]) == Observed(image, ObservedAll(image, run), insn)
  {
    hide Observed, FallsThrough;
    assert (run + [insn])[..|run|] == run;
  }

  /** A branch is resolved along the run that leads to it, or not. */
  lemma TracedOrNot(image: Image, queued: set<nat>, run: seq<Insn>, rva: nat, insn: Insn, resolved: Option<int>)
    requires SweptTo(image, queued, run, rva) && InsnAt(image, rva) == Some(insn)
    requires resolved == if IsIndirectBranch(insn) then ResolveBranch(image, ObservedAll(image, run), insn) else None
    ensures resolved.Some? ==> Traced(image, rva, resolved.value)
    ensures IsIndirectBranch(insn) && resolved.None? ==> Untraceable(image, queued, rva)
  {
    hide ObservedAll, ResolveBranch, StraightLine, IsIndirectBranch;
    if resolved.Some? { assert ResolvedAlong(image, run, rva, resolved.value); }
    if IsIndirectBranch(insn) && resolved.None? { assert OpenAlong(image, queued, run, rva); }
  }

  lemma SoundShrinks(image: Image, config: Config, seeds: set<nat>, p: Progress, current: set<nat>, less: set<nat>)
    requires Sound(image, config, seeds, p, current) && less <= current
    ensures Sound(image, config, seeds, p, less)
  {
  }

  lemma CurrentIsVisited(image: Image, config: Config, seeds: set<nat>, p: Progress, rva: nat, rest: set<nat>,
                         cut: bool)
    requires Sound(image, config, seeds, p, {rva} + rest) && rva in p.claimed
    requires !cut ==> Complete(image, seeds, p, {rva} + rest)
    ensures Sound(image, config, seeds, p, rest) && (!cut ==> Complete(image, seeds, p, rest))
  {
    hide Sound, Complete;
    SoundShrinks(image, config, seeds, p, {rva} + rest, rest);
    if !cut { CompleteShrinks(image, seeds, p, rva, rest); }
  }

  lemma CompleteShrinks(image: Image, seeds: set<nat>, p: Progress, rva: nat, rest: set<nat>)
    requires Complete(image, seeds, p, {rva} + rest) && rva in Visited(p)
    ensures Complete(image, seeds, p, rest)
  {
    hide InsnAt, FallsThrough;
  }

  lemma UndecodableIsVisited(image: Image, config: Config, seeds: set<nat>, p: Progress, rva: nat, rest: set<nat>,
                             cut: bool)
    requires Sound(image, config, seeds, p, {rva} + rest) && InsnAt(image, rva) == None
    requires !cut ==> Complete(image, seeds, p, {rva} + rest)
    ensures var p' := p.(undecodable := p.undecodable + {rva});
            Sound(image, config, seeds, p', rest) && (!cut ==> Complete(image, seeds, p', rest))
  {
    hide Reach, Traced, OperandTargets, OperandXrefs, DirectTarget;
    var p' := p.(undecodable := p.undecodable + {rva});
    forall a | a in p'.claimed ensures Followed(image, config, p', a) {
      assert Followed(image, config, p, a);
      FollowedGrows(image, config, p, p', a);
    }
    forall x | x in p'.xrefs ensures Justified(image, p', x) { JustifiedGrows(image, p, p', x); }
    assert GraphOf(image, config, p') == GraphOf(image, config, p);
  }

  lemma VisitedOne(image: Image, config: Config, seeds: set<nat>, p: Progress, rest: set<nat>,
                   rva: nat, insn: Insn, resolved: Option<int>, cut: bool)
    requires Sound(image, config, seeds, p, {rva} + rest) && CanVisit(image, p.queued, rva, insn, resolved)
    requires !cut ==> Complete(image, seeds, p, {rva} + rest)
    ensures var p' := AfterInsn(image, config, p, rva, insn, resolved);
            && OnlyQueued(p, p')
            && Sound(image, config, seeds, p', Ahead(rva, Some(insn)) + rest)
            && (!cut ==> Complete(image, seeds, p', Ahead(rva, Some(insn)) + rest))
  {
    hide Sound, Complete, CanVisit;
    VisitSound(image, config, seeds, p, rest, rva, insn, resolved);
    if !cut { VisitComplete(image, config, seeds, p, rest, rva, insn, resolved); }
    VisitWaits(image, config, p, rva, insn, resolved);
  }

  lemma VisitWaits(image: Image, config: Config, p: Progress, rva: nat, insn: Insn, resolved: Option<int>)
    ensures OnlyQueued(p, AfterInsn(image, config, p, rva, insn, resolved))
  {
  }

  lemma ReferIs(p: Progress, x: set<Xref>)
    ensures Refer(p, x) == p.(xrefs := p.xrefs + x)
  {
  }

  /** Recording and queueing twice is recording and queueing once. */
  lemma StepsCombine(p: Progress, x: set<Xref>, a: set<nat>, y: set<Xref>, b: set<nat>)
    ensures Queue(Refer(Queue(Refer(p, x), a), y), b) == Queue(Refer(p, x + y), a + b)
  {
  }
}
