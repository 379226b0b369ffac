/** One function's control-flow graph, with its gaps shown. */
module Cfg {
  import opened Wrappers
  import opened Image
  import opened Functions
  import opened Decoder

  datatype Kind = FALL | JCC | JMP | INDIRECT | RET

  datatype Successor = Successor(kind: Kind, target: Option<int>)

  datatype Block = Block(rva: int, instructions: seq<int>, successors: seq<Successor>)

  datatype Reason = BlockLimit | Undecoded

  datatype FunctionCFG = FunctionCFG(entry: int, blocks: map<int, Block>, complete: bool, indirectCalls: set<int>,
                                     truncated: bool, reason: Option<Reason>)

  /** The edges whose destination is known. */
  function Edges(cfg: FunctionCFG): set<(int, Kind, int)> {
    set s, e | s in cfg.blocks && e in cfg.blocks[s].successors && e.target.Some? :: (s, e.kind, e.target.value)
  }

  /** The edges whose destination is not known; a return is not one of them. */
  function Unresolved(cfg: FunctionCFG): set<(int, Kind)> {
    set s, e | s in cfg.blocks && e in cfg.blocks[s].successors && e.target.None? && e.kind != RET :: (s, e.kind)
  }

  // ----- the instructions of a function, one step at a time -----

  /** The part of the image a graph is built over. */
  datatype Region = Region(image: Image, limit: Option<int>)

  /** An address that decodes, inside the function's extent. */
  predicate Live(r: Region, a: int) {
    InsnAt(r.image, a).Some? && (r.limit.None? || a < r.limit.value)
  }

  /** Where control can go from a live instruction, within the function, as far as the
      encoding says: calls return, and a jump may go where nothing here tells. */
  ghost predicate Step(r: Region, a: int, b: int) {
    Live(r, a) &&
    var insn := InsnAt(r.image, a).value;
    && !insn.isRet
    && if insn.isJmp then (!IsIndirectBranch(insn) && BranchTarget(insn, r.image) == Some(b))
                          || (insn.isCond && b == a + insn.size)
       else b == a + insn.size
  }

  /** A jump whose target is not known. */
  predicate Unknown(r: Region, a: int) {
    InsnAt(r.image, a).Some? &&
    var insn := InsnAt(r.image, a).value;
    insn.isJmp && !insn.isRet && (IsIndirectBranch(insn) || BranchTarget(insn, r.image).None?)
  }

  /** The builder does not go on behind such a jump, not even where it may fall through. */
  ghost predicate KnownStep(r: Region, a: int, b: int) { Step(r, a, b) && !Unknown(r, a) }

  ghost predicate IsWalk(r: Region, entry: int, path: seq<int>) {
    |path| > 0 && path[0] == entry && forall i :: 0 <= i < |path| - 1 ==> KnownStep(r, path[i], path[i + 1])
  }

  ghost predicate Reachable(r: Region, entry: int, a: int) {
    exists path :: IsWalk(r, entry, path) && path[|path| - 1] == a
  }

  // ----- straight-line runs -----

  /** How a block ends at an instruction, if it does. */
  function EndsBlock(r: Region, a: int, insn: Insn): Option<seq<Successor>> {
    if insn.isRet then Some([Successor(RET, None)])
    else if !insn.isJmp then None
    else if IsIndirectBranch(insn) || BranchTarget(insn, r.image).None? then Some([Successor(INDIRECT, None)])
    else if insn.isCond then
      Some([Successor(JCC, BranchTarget(insn, r.image)), Successor(FALL, Some(a + insn.size))])
    else Some([Successor(JMP, BranchTarget(insn, r.image))])
  }

  datatype Walked = Walked(instructions: seq<int>, successors: seq<Successor>)

  /** The block that starts at an address. */
  ghost function Walk(r: Region, a: int): Walked
    requires DisassemblerOk(r.image)
    decreases Span(r.image) - a
  {
    if !Live(r, a) then Walked([], [Successor(FALL, None)])
    else
      var insn := InsnAt(r.image, a).value;
      match EndsBlock(r, a, insn)
      case Some(successors) => Walked([a], successors)
      case None =>
        MappedIsInSpan(r.image, a);
        var rest := Walk(r, a + insn.size);
        Walked([a] + rest.instructions, rest.successors)
  }

  ghost predicate IsBlock(r: Region, start: int, b: Block)
    requires DisassemblerOk(r.image)
  {
    b.rva == start && b.instructions == Walk(r, start).instructions && b.successors == Walk(r, start).successors
  }

  /** Two blocks that share an instruction share everything from there on. */
  lemma {:induction false} SharedSuffix(r: Region, start: int, i: nat)
    requires DisassemblerOk(r.image) && i < |Walk(r, start).instructions|
    ensures Walk(r, Walk(r, start).instructions[i])
            == Walked(Walk(r, start).instructions[i..], Walk(r, start).successors)
    decreases i
  {
    if i > 0 {
      var insn := InsnAt(r.image, start).value;
      var rest := Walk(r, start + insn.size);
      SharedSuffix(r, start + insn.size, i - 1);
      assert Walk(r, start).instructions[i..] == rest.instructions[i - 1..];
    }
  }

  lemma BlocksAgree(r: Region, s: int, t: int, i: nat, j: nat)
    requires DisassemblerOk(r.image)
    requires i < |Walk(r, s).instructions| && j < |Walk(r, t).instructions|
    requires Walk(r, s).instructions[i] == Walk(r, t).instructions[j]
    ensures Walk(r, s).instructions[i..] == Walk(r, t).instructions[j..]
    ensures Walk(r, s).successors == Walk(r, t).successors
  {
    hide Walk;
    SharedSuffix(r, s, i);
    SharedSuffix(r, t, j);
  }

  // ----- what a finished graph says -----

  /** Every block is the walk from its key, the entry is a key, and (unless cut short) so is
      every known destination; every key can be reached; and the flags mean what they say. */
  ghost predicate GraphOk(r: Region, cfg: FunctionCFG) {
    && DisassemblerOk(r.image)
    && (forall s :: s in cfg.blocks ==> IsBlock(r, s, cfg.blocks[s]) && Reachable(r, cfg.entry, s))
    && (!cfg.truncated ==> cfg.entry in cfg.blocks && forall e :: e in Edges(cfg) ==> e.2 in cfg.blocks)
    && (cfg.complete <==> Unresolved(cfg) == {} && !cfg.truncated)
    && (cfg.truncated ==> cfg.reason == Some(BlockLimit))
    && (!cfg.truncated ==> (cfg.reason.Some? <==> SomeUndecoded(cfg.blocks)))
  }

  ghost predicate InGraph(cfg: FunctionCFG, a: int) {
    exists s :: s in cfg.blocks && a in cfg.blocks[s].instructions
  }

  /** From a block's instruction, control stays in the block or follows one of its edges. */
  lemma {:induction false} StepsStay(r: Region, start: int, i: nat, b: int)
    requires DisassemblerOk(r.image) && i < |Walk(r, start).instructions|
    requires KnownStep(r, Walk(r, start).instructions[i], b)
    ensures (i + 1 < |Walk(r, start).instructions| && Walk(r, start).instructions[i + 1] == b)
            || (i + 1 == |Walk(r, start).instructions|
                && ((Successor(FALL, None) in Walk(r, start).successors && !Live(r, b))
                    || exists e :: e in Walk(r, start).successors && e.target == Some(b)))
    decreases i
  {
    var insn := InsnAt(r.image, start).value;
    if i == 0 {
      var ends := EndsBlock(r, start, insn);
      if ends.Some? {
        assert ends.value[0].target == Some(b) || (|ends.value| == 2 && ends.value[1].target == Some(b));
        assert ends.value[0] in ends.value;
      } else {
        assert Walk(r, b).instructions == [] || Walk(r, b).instructions[0] == b;
      }
    } else {
      assert Walk(r, start).instructions[1..] == Walk(r, start + insn.size).instructions;
      StepsStay(r, start + insn.size, i - 1, b);
    }
  }

  /** A live address that is a key of the graph is in the graph. */
  lemma KeyInGraph(r: Region, cfg: FunctionCFG, s: int)
    requires GraphOk(r, cfg) && s in cfg.blocks && Live(r, s)
    ensures InGraph(cfg, s)
  {
  }

  lemma {:induction false} WalkStaysInGraph(r: Region, cfg: FunctionCFG, path: seq<int>)
    requires GraphOk(r, cfg) && !cfg.truncated && IsWalk(r, cfg.entry, path) && Live(r, path[|path| - 1])
    ensures InGraph(cfg, path[|path| - 1])
    decreases |path|
  {
    hide Walk, Live, Reachable, EndsBlock;
    var b := path[|path| - 1];
    if |path| == 1 {
      KeyInGraph(r, cfg, b);
    } else {
      var a := path[|path| - 2];
      assert KnownStep(r, path[|path| - 2], path[|path| - 1]);
      WalkPrefix(r, cfg.entry, path);
      WalkStaysInGraph(r, cfg, path[..|path| - 1]);
      StepInGraph(r, cfg, a, b);
    }
  }

  lemma WalkPrefix(r: Region, entry: int, path: seq<int>)
    requires IsWalk(r, entry, path) && |path| > 1
    ensures IsWalk(r, entry, path[..|path| - 1])
  {
  }

  lemma StepInGraph(r: Region, cfg: FunctionCFG, a: int, b: int)
    requires GraphOk(r, cfg) && !cfg.truncated && InGraph(cfg, a) && KnownStep(r, a, b) && Live(r, b)
    ensures InGraph(cfg, b)
  {
    hide Walk, Live, Reachable, KnownStep, EndsBlock;
    var s :| s in cfg.blocks && a in cfg.blocks[s].instructions;
    var w := Walk(r, s);
    assert IsBlock(r, s, cfg.blocks[s]);
    var i :| 0 <= i < |w.instructions| && w.instructions[i] == a;
    StepsStay(r, s, i, b);
    if i + 1 < |w.instructions| {
      assert w.instructions[i + 1] in cfg.blocks[s].instructions;
    } else {
      var e :| e in w.successors && e.target == Some(b);
      assert (s, e.kind, b) in Edges(cfg);
      KeyInGraph(r, cfg, b);
    }
  }

  lemma {:induction false} InstructionsReachable(r: Region, entry: int, start: int, i: nat)
    requires DisassemblerOk(r.image) && i < |Walk(r, start).instructions| && Reachable(r, entry, start)
    ensures Reachable(r, entry, Walk(r, start).instructions[i]) && Live(r, Walk(r, start).instructions[i])
    decreases i
  {
    if i > 0 {
      var insn := InsnAt(r.image, start).value;
      ReachableStep(r, entry, start, start + insn.size);
      InstructionsReachable(r, entry, start + insn.size, i - 1);
    }
  }

  lemma ReachableStep(r: Region, entry: int, a: int, b: int)
    requires Reachable(r, entry, a) && KnownStep(r, a, b)
    ensures Reachable(r, entry, b)
  {
    hide KnownStep;
    var path :| IsWalk(r, entry, path) && path[|path| - 1] == a;
    assert IsWalk(r, entry, path + [b]);
  }

  /** An untruncated graph holds exactly the instructions that control can reach from the
      entry without leaving the function's extent or what decodes. */
  lemma GraphIsReachable(r: Region, cfg: FunctionCFG, a: int)
    requires GraphOk(r, cfg) && !cfg.truncated
    ensures InGraph(cfg, a) <==> Reachable(r, cfg.entry, a) && Live(r, a)
  {
    hide Walk, Live, KnownStep, EndsBlock;
    if InGraph(cfg, a) {
      var s :| s in cfg.blocks && a in cfg.blocks[s].instructions;
      assert IsBlock(r, s, cfg.blocks[s]);
      var i :| 0 <= i < |Walk(r, s).instructions| && Walk(r, s).instructions[i] == a;
      InstructionsReachable(r, cfg.entry, s, i);
    }
    if Reachable(r, cfg.entry, a) && Live(r, a) {
      var path :| IsWalk(r, cfg.entry, path) && path[|path| - 1] == a;
      WalkStaysInGraph(r, cfg, path);
    }
  }

  /** A complete graph has it all: whatever control reaches from the entry decodes, lies
      inside the extent, is in a block, and is not a jump to somewhere unknown. */
  lemma {:induction false} CompleteMeansAll(r: Region, cfg: FunctionCFG, path: seq<int>)
    requires GraphOk(r, cfg) && cfg.complete
    requires |path| > 0 && path[0] == cfg.entry && forall i :: 0 <= i < |path| - 1 ==> Step(r, path[i], path[i + 1])
    ensures var a := path[|path| - 1]; Live(r, a) && InGraph(cfg, a) && !Unknown(r, a)
    ensures IsWalk(r, cfg.entry, path)
    decreases |path|
  {
    hide Walk, Live, Step, EndsBlock, Unresolved, Reachable, Unknown;
    if |path| > 1 {
      var init := path[..|path| - 1];
      forall i | 0 <= i < |init| - 1 ensures Step(r, init[i], init[i + 1]) { assert Step(r, path[i], path[i + 1]); }
      CompleteMeansAll(r, cfg, init);
      forall i | 0 <= i < |path| - 1 ensures KnownStep(r, path[i], path[i + 1]) {
        if i < |init| - 1 { assert KnownStep(r, init[i], init[i + 1]); }
        else { assert Step(r, path[i], path[i + 1]); }
      }
    }
    CompleteWalk(r, cfg, path);
    NoUnresolvedAt(r, cfg, path[|path| - 1]);
  }

  lemma {:induction false} CompleteWalk(r: Region, cfg: FunctionCFG, path: seq<int>)
    requires GraphOk(r, cfg) && cfg.complete && IsWalk(r, cfg.entry, path)
    ensures Live(r, path[|path| - 1]) && InGraph(cfg, path[|path| - 1])
    decreases |path|
  {
    hide Walk, Live, KnownStep, EndsBlock, Reachable, Unresolved, Edges;
    var b := path[|path| - 1];
    if |path| == 1 {
      KeyIsLive(r, cfg, b);
    } else {
      assert KnownStep(r, path[|path| - 2], path[|path| - 1]);
      WalkPrefix(r, cfg.entry, path);
      CompleteWalk(r, cfg, path[..|path| - 1]);
      CompleteStep(r, cfg, path[|path| - 2], b);
    }
  }

  lemma KeyIsLive(r: Region, cfg: FunctionCFG, s: int)
    requires GraphOk(r, cfg) && cfg.complete && s in cfg.blocks
    ensures Live(r, s) && InGraph(cfg, s)
  {
    hide Reachable, EndsBlock;
    assert IsBlock(r, s, cfg.blocks[s]);
    NoneMissing(cfg, s);
    DeadWalk(r, s);
    KeyInGraph(r, cfg, s);
  }

  lemma CompleteStep(r: Region, cfg: FunctionCFG, a: int, b: int)
    requires GraphOk(r, cfg) && cfg.complete && InGraph(cfg, a) && KnownStep(r, a, b)
    ensures Live(r, b) && InGraph(cfg, b)
  {
    hide Walk, Live, KnownStep, EndsBlock, Reachable;
    var s :| s in cfg.blocks && a in cfg.blocks[s].instructions;
    var w := Walk(r, s);
    assert IsBlock(r, s, cfg.blocks[s]);
    var i :| 0 <= i < |w.instructions| && w.instructions[i] == a;
    StepsStay(r, s, i, b);
    NoneMissing(cfg, s);
    if i + 1 < |w.instructions| {
      InstructionsReachable(r, cfg.entry, s, i + 1);
      assert w.instructions[i + 1] in cfg.blocks[s].instructions;
    } else {
      var e :| e in w.successors && e.target == Some(b);
      assert (s, e.kind, b) in Edges(cfg);
      KeyIsLive(r, cfg, b);
    }
  }

  lemma NoUnresolvedAt(r: Region, cfg: FunctionCFG, a: int)
    requires GraphOk(r, cfg) && cfg.complete && InGraph(cfg, a)
    ensures Live(r, a) && !Unknown(r, a)
  {
    hide Reachable;
    var s :| s in cfg.blocks && a in cfg.blocks[s].instructions;
    assert IsBlock(r, s, cfg.blocks[s]);
    var i :| 0 <= i < |Walk(r, s).instructions| && Walk(r, s).instructions[i] == a;
    InstructionsReachable(r, cfg.entry, s, i);
    SharedSuffix(r, s, i);
    NoneMissing(cfg, s);
    DeadWalk(r, a);
  }

  lemma DeadWalk(r: Region, a: int)
    requires DisassemblerOk(r.image)
    ensures !Live(r, a) ==> Walk(r, a).successors == [Successor(FALL, None)]
    ensures Live(r, a) && Unknown(r, a) ==> Walk(r, a).successors == [Successor(INDIRECT, None)]
  {
  }

  lemma NoneMissing(cfg: FunctionCFG, s: int)
    requires Unresolved(cfg) == {} && s in cfg.blocks
    ensures Successor(FALL, None) !in cfg.blocks[s].successors && Successor(INDIRECT, None) !in cfg.blocks[s].successors
  {
    assert (s, FALL) !in Unresolved(cfg) && (s, INDIRECT) !in Unresolved(cfg);
  }

  // ----- what a block is, in terms of its instructions -----

  /** Instructions one behind the other, of which only the last may return or jump. */
  ghost predicate StraightRun(r: Region, start: int, instructions: seq<int>) {
    && (instructions != [] ==> instructions[0] == start)
    && (forall i :: 0 <= i < |instructions| ==> Live(r, instructions[i]))
    && forall i :: 0 <= i < |instructions| - 1 ==> GoesThrough(r, instructions[i], instructions[i + 1])
  }

  predicate GoesThrough(r: Region, a: int, b: int) {
    InsnAt(r.image, a).Some? &&
    var insn := InsnAt(r.image, a).value; !insn.isRet && !insn.isJmp && b == a + insn.size
  }

  /** A jump whose target is in the instruction. */
  predicate JumpsTo(r: Region, insn: Insn, t: int) {
    insn.isJmp && !insn.isRet && !IsIndirectBranch(insn) && BranchTarget(insn, r.image) == Some(t)
  }

  /** How control leaves an instruction at which a block ends: taken and not taken for a
      conditional jump, taken for another, with nothing known for a jump to somewhere unknown,
      a return, and, for what does not jump, on to an address that is not live. */
  ghost predicate Leaves(r: Region, a: int, e: Successor) {
    InsnAt(r.image, a).Some? &&
    var insn := InsnAt(r.image, a).value;
    match e
    case Successor(JCC, Some(t)) => JumpsTo(r, insn, t) && insn.isCond
    case Successor(FALL, Some(t)) => insn.isCond && t == a + insn.size && exists u :: JumpsTo(r, insn, u)
    case Successor(JMP, Some(t)) => JumpsTo(r, insn, t) && !insn.isCond
    case Successor(INDIRECT, None) => Unknown(r, a)
    case Successor(RET, None) => insn.isRet
    case Successor(FALL, None) => !insn.isRet && !insn.isJmp
    case _ => false
  }

  /** The successors are exactly the ways control leaves the last instruction; an empty block
      stands for an address that is not live. */
  ghost predicate EndsRight(r: Region, start: int, instructions: seq<int>, successors: seq<Successor>) {
    && (instructions == [] ==> !Live(r, start) && successors == [Successor(FALL, None)])
    && (instructions != [] ==>
          var last := instructions[|instructions| - 1];
          && (forall e :: e in successors <==> Leaves(r, last, e))
          && (Successor(FALL, None) in successors ==> forall b :: GoesThrough(r, last, b) ==> !Live(r, b)))
  }

  lemma {:induction false} BlockShape(r: Region, start: int)
    requires DisassemblerOk(r.image)
    ensures StraightRun(r, start, Walk(r, start).instructions)
    ensures EndsRight(r, start, Walk(r, start).instructions, Walk(r, start).successors)
    decreases Span(r.image) - start
  {
    hide StraightRun, EndsRight, InsnAt, Leaves;
    WalkStep(r, start);
    if !Live(r, start) {
      EmptyBlock(r, start);
    } else {
      var insn := InsnAt(r.image, start).value;
      match EndsBlock(r, start, insn) {
        case Some(successors) => LastInstruction(r, start, successors);
        case None =>
          BlockShape(r, start + insn.size);
          OneBefore(r, start, insn, Walk(r, start + insn.size).instructions, Walk(r, start + insn.size).successors);
      }
    }
  }

  lemma EmptyBlock(r: Region, start: int)
    requires !Live(r, start)
    ensures StraightRun(r, start, []) && EndsRight(r, start, [], [Successor(FALL, None)])
  {
  }

  lemma LastInstruction(r: Region, a: int, successors: seq<Successor>)
    requires Live(r, a) && EndsBlock(r, a, InsnAt(r.image, a).value) == Some(successors)
    ensures StraightRun(r, a, [a]) && EndsRight(r, a, [a], successors)
  {
    hide BranchTarget, IsIndirectBranch;
    assert |successors| <= 2 && successors[0] in successors && (|successors| == 2 ==> successors[1] in successors);
    var insn := InsnAt(r.image, a).value;
    if BranchTarget(insn, r.image).Some? && !IsIndirectBranch(insn) && insn.isJmp && !insn.isRet {
      assert JumpsTo(r, insn, BranchTarget(insn, r.image).value);
    }
    forall e ensures e in successors <==> Leaves(r, a, e) { }
  }

  lemma OneBefore(r: Region, a: int, insn: Insn, instructions: seq<int>, successors: seq<Successor>)
    requires Live(r, a) && InsnAt(r.image, a) == Some(insn) && EndsBlock(r, a, insn).None?
    requires StraightRun(r, a + insn.size, instructions)
    requires EndsRight(r, a + insn.size, instructions, successors)
    ensures StraightRun(r, a, [a] + instructions) && EndsRight(r, a, [a] + instructions, successors)
  {
    hide Live, InsnAt;
    if instructions == [] {
      forall e ensures e in successors <==> Leaves(r, a, e) { }
    } else {
      assert ([a] + instructions)[|instructions|] == instructions[|instructions| - 1];
    }
  }

  /** Nothing decodes there, or it lies behind the function. */
  predicate Outside(r: Region, a: int) {
    InsnAt(r.image, a).None? || (r.limit.Some? && a >= r.limit.value)
  }

  lemma LiveExactly(r: Region, a: int)
    ensures Live(r, a) <==> !Outside(r, a)
  {
  }

  /** In any finished graph: a block is a straight run of live instructions that only the last
      may end, and its edges are the ways control leaves that one, each under its own kind. */
  lemma EdgesExactly(r: Region, cfg: FunctionCFG, s: int)
    requires GraphOk(r, cfg) && s in cfg.blocks
    ensures StraightRun(r, s, cfg.blocks[s].instructions)
    ensures cfg.blocks[s].instructions != [] ==>
              var last := cfg.blocks[s].instructions[|cfg.blocks[s].instructions| - 1];
              && (forall k, t :: (s, k, t) in Edges(cfg) <==> Leaves(r, last, Successor(k, Some(t))))
              && (forall k :: (s, k) in Unresolved(cfg) <==> k != RET && Leaves(r, last, Successor(k, None)))
    ensures cfg.blocks[s].instructions == [] ==>
              && Outside(r, s) && (s, FALL) in Unresolved(cfg) && forall k, t :: (s, k, t) !in Edges(cfg)
    ensures (s, FALL) in Unresolved(cfg) && cfg.blocks[s].instructions != [] ==>
              var last := cfg.blocks[s].instructions[|cfg.blocks[s].instructions| - 1];
              forall b :: GoesThrough(r, last, b) ==> Outside(r, b)
    ensures forall a :: a in cfg.blocks[s].instructions ==> !Outside(r, a)
  {
    hide Walk, Reachable, Live, Leaves, InsnAt;
    forall a ensures Outside(r, a) <==> !Live(r, a) { LiveExactly(r, a); }
    BlockShape(r, s);
    assert IsBlock(r, s, cfg.blocks[s]);
    var successors := cfg.blocks[s].successors;
    forall k, t ensures (s, k, t) in Edges(cfg) <==> Successor(k, Some(t)) in successors { EdgeIs(cfg, s, k, t); }
    forall k ensures (s, k) in Unresolved(cfg) <==> k != RET && Successor(k, None) in successors {
      UnresolvedIs(cfg, s, k);
    }
  }

  /** An undecoded stretch is reported exactly when some block runs on to an address that is not
      live. */
  lemma UndecodedExactly(r: Region, cfg: FunctionCFG)
    requires GraphOk(r, cfg) && !cfg.truncated
    ensures cfg.reason.Some? <==> exists s :: s in cfg.blocks && (s, FALL) in Unresolved(cfg)
  {
    hide Walk, Reachable;
    forall s | s in cfg.blocks
      ensures Gap(cfg.blocks[s].successors) == Some(FALL) <==> (s, FALL) in Unresolved(cfg) {
      assert IsBlock(r, s, cfg.blocks[s]);
      BlockShape(r, s);
      UnresolvedIs(cfg, s, FALL);
      OnlyFall(r, s);
    }
  }

  lemma {:induction false} OnlyFall(r: Region, a: int)
    requires DisassemblerOk(r.image)
    ensures Successor(FALL, None) in Walk(r, a).successors <==> Walk(r, a).successors == [Successor(FALL, None)]
    decreases Span(r.image) - a
  {
    hide InsnAt;
    WalkStep(r, a);
    if Live(r, a) && EndsBlock(r, a, InsnAt(r.image, a).value).None? {
      OnlyFall(r, a + InsnAt(r.image, a).value.size);
    }
  }

  lemma EdgeIs(cfg: FunctionCFG, s: int, k: Kind, t: int)
    requires s in cfg.blocks
    ensures (s, k, t) in Edges(cfg) <==> Successor(k, Some(t)) in cfg.blocks[s].successors
  {
  }

  lemma UnresolvedIs(cfg: FunctionCFG, s: int, k: Kind)
    requires s in cfg.blocks
    ensures (s, k) in Unresolved(cfg) <==> k != RET && Successor(k, None) in cfg.blocks[s].successors
  {
  }

  // ----- the builder -----

  /** What of a block's end is missing from the graph. */
  function Gap(successors: seq<Successor>): Option<Kind> {
    if successors == [Successor(FALL, None)] then Some(FALL)
    else if successors == [Successor(INDIRECT, None)] then Some(INDIRECT)
    else None
  }

  lemma WalkStep(r: Region, a: int)
    requires DisassemblerOk(r.image)
    ensures !Live(r, a) ==> Walk(r, a) == Walked([], [Successor(FALL, None)])
    ensures Live(r, a) ==>
              var insn := InsnAt(r.image, a).value;
              && a < Span(r.image) && insn.size >= 1
              && match EndsBlock(r, a, insn)
                 case Some(successors) => Walk(r, a) == Walked([a], successors)
                 case None => Walk(r, a) == Walked([a] + Walk(r, a + insn.size).instructions,
                                                   Walk(r, a + insn.size).successors)
  {
  }

  /** Only an unresolved end has a destination that is not known. */
  lemma {:induction false} GapIsTheOnlyOne(r: Region, a: int)
    requires DisassemblerOk(r.image)
    ensures Gap(Walk(r, a).successors) == None <==>
            forall e :: e in Walk(r, a).successors && e.target.None? ==> e.kind == RET
    decreases Span(r.image) - a
  {
    hide InsnAt;
    WalkStep(r, a);
    if Live(r, a) && EndsBlock(r, a, InsnAt(r.image, a).value).None? {
      GapIsTheOnlyOne(r, a + InsnAt(r.image, a).value.size);
    } else {
      var successors := Walk(r, a).successors;
      assert successors[0] in successors;
    }
  }

  /** The block at `start` is these instructions and then the block at `addr`. */
  ghost predicate GoesOn(r: Region, start: int, instructions: seq<int>, addr: int)
    requires DisassemblerOk(r.image)
  {
    Walk(r, start) == Walked(instructions + Walk(r, addr).instructions, Walk(r, addr).successors)
  }

  lemma GoOn(r: Region, start: int, instructions: seq<int>, addr: int)
    requires DisassemblerOk(r.image) && GoesOn(r, start, instructions, addr)
    ensures !Live(r, addr) ==> IsBlock(r, start, Block(start, instructions, [Successor(FALL, None)]))
    ensures Live(r, addr) ==>
              var insn := InsnAt(r.image, addr).value;
              match EndsBlock(r, addr, insn)
              case Some(successors) => IsBlock(r, start, Block(start, instructions + [addr], successors))
              case None => GoesOn(r, start, instructions + [addr], addr + insn.size)
  {
  }

  lemma AdvancesInside(r: Region, a: int)
    requires DisassemblerOk(r.image) && Live(r, a)
    ensures a < Span(r.image) && InsnAt(r.image, a).value.size >= 1
  {
  }

  /** Follow one block, and note the calls through registers or memory on the way. */
  method WalkBlock(decoder: InstructionDecoder, r: Region, start: int) returns (b: Block, calls: set<int>)
    requires decoder.Valid() && decoder.image == r.image && DisassemblerOk(r.image)
    modifies decoder, decoder.sizeAt
    ensures decoder.Valid() && IsBlock(r, start, b)
    ensures calls == IndirectCallsIn(r, b.instructions)
  {
    hide InstructionDecoder.Valid, DisassemblerOk, Walk, IndirectCallsIn, InsnAt, BranchTarget, IsIndirectBranch;
    hide GoesOn, IsBlock, Span, SizesAfter, InstructionDecoder.FailureReason, FailureOf, Keys;
    var instructions: seq<int> := [];
    calls := {};
    var addr := start;
    WalkStarts(r, start);
    while true
      invariant decoder.Valid() && GoesOn(r, start, instructions, addr)
      invariant calls == IndirectCallsIn(r, instructions)
      decreases Span(r.image) - addr
    {
      GoOn(r, start, instructions, addr);
      var insn := decoder.DecodeOne(addr);
      if insn.None? || (r.limit.Some? && addr >= r.limit.value) {
        b := Block(start, instructions, [Successor(FALL, None)]);
        return;
      }
      OneMoreCall(r, instructions, addr);
      instructions := instructions + [addr];
      if insn.value.isCall && IsIndirectBranch(insn.value) { calls := calls + {addr}; }
      if insn.value.isRet {
        b := Block(start, instructions, [Successor(RET, None)]);
        return;
      }
      if insn.value.isJmp {
        var successors := JumpSuccessors(r, addr, insn.value);
        b := Block(start, instructions, successors);
        return;
      }
      AdvancesInside(r, addr);
      addr := addr + insn.value.size;
    }
  }

  lemma WalkStarts(r: Region, start: int)
    requires DisassemblerOk(r.image)
    ensures GoesOn(r, start, [], start) && IndirectCallsIn(r, []) == {}
  {
  }

  method JumpSuccessors(r: Region, addr: int, insn: Insn) returns (successors: seq<Successor>)
    requires insn.isJmp && !insn.isRet
    ensures EndsBlock(r, addr, insn) == Some(successors)
  {
    if IsIndirectBranch(insn) { return [Successor(INDIRECT, None)]; }
    var target := BranchTarget(insn, r.image);
    if target.None? { return [Successor(INDIRECT, None)]; }
    if insn.isCond {
      successors := [Successor(JCC, target), Successor(FALL, Some(addr + insn.size))];
    } else {
      successors := [Successor(JMP, target)];
    }
  }

  ghost predicate IsIndirectCall(r: Region, a: int) {
    InsnAt(r.image, a).Some? && InsnAt(r.image, a).value.isCall && IsIndirectBranch(InsnAt(r.image, a).value)
  }

  ghost function IndirectCallsIn(r: Region, instructions: seq<int>): set<int> {
    set a | a in instructions && IsIndirectCall(r, a)
  }

  lemma OneMoreCall(r: Region, instructions: seq<int>, a: int)
    ensures IndirectCallsIn(r, instructions + [a])
            == IndirectCallsIn(r, instructions) + if IsIndirectCall(r, a) then {a} else {}
  {
  }

  /** Blocks found so far, and destinations still to visit: all reachable, none dropped. */
  ghost predicate Growing(r: Region, entry: int, blocks: map<int, Block>, pending: seq<int>)
    requires DisassemblerOk(r.image)
  {
    && (forall s :: s in blocks ==> IsBlock(r, s, blocks[s]) && Reachable(r, entry, s))
    && (forall a :: a in pending ==> Reachable(r, entry, a))
    && (entry in blocks || entry in pending)
    && (forall s, e :: s in blocks && e in blocks[s].successors && e.target.Some? ==>
          e.target.value in blocks || e.target.value in pending)
  }

  lemma {:induction false} SuccessorsReachable(r: Region, entry: int, start: int, e: Successor)
    requires DisassemblerOk(r.image) && Reachable(r, entry, start)
    requires e in Walk(r, start).successors && e.target.Some?
    ensures Reachable(r, entry, e.target.value)
    decreases Span(r.image) - start
  {
    if Live(r, start) {
      var insn := InsnAt(r.image, start).value;
      if EndsBlock(r, start, insn).Some? {
        ReachableStep(r, entry, start, e.target.value);
      } else {
        MappedIsInSpan(r.image, start);
        ReachableStep(r, entry, start, start + insn.size);
        SuccessorsReachable(r, entry, start + insn.size, e);
      }
    }
  }

  /** The destinations a block adds, in the order they are pushed. */
  function Targets(successors: seq<Successor>): seq<int> {
    if successors == [] then []
    else (if successors[0].target.Some? then [successors[0].target.value] else []) + Targets(successors[1..])
  }

  lemma {:induction false} TargetsAre(successors: seq<Successor>, a: int)
    ensures a in Targets(successors) <==> exists e :: e in successors && e.target == Some(a)
  {
    if successors != [] {
      TargetsAre(successors[1..], a);
      assert successors == [successors[0]] + successors[1..];
    }
  }

  lemma GrowOne(r: Region, entry: int, blocks: map<int, Block>, pending: seq<int>, start: int, b: Block)
    requires DisassemblerOk(r.image) && Growing(r, entry, blocks, pending + [start]) && IsBlock(r, start, b)
    ensures Growing(r, entry, blocks[start := b], pending + Targets(b.successors))
  {
    hide Walk, Reachable;
    var more := pending + Targets(b.successors);
    assert start in pending + [start];
    forall a | a in more ensures Reachable(r, entry, a) {
      TargetsAre(b.successors, a);
      if a in pending { assert a in pending + [start]; }
      else {
        var e :| e in b.successors && e.target == Some(a);
        SuccessorsReachable(r, entry, start, e);
      }
    }
    var blocks' := blocks[start := b];
    forall s, e | s in blocks' && e in blocks'[s].successors && e.target.Some?
      ensures e.target.value in blocks' || e.target.value in more {
      if s == start { TargetsAre(b.successors, e.target.value); }
    }
  }

  lemma DropOne(r: Region, entry: int, blocks: map<int, Block>, pending: seq<int>, start: int)
    requires DisassemblerOk(r.image) && Growing(r, entry, blocks, pending + [start]) && start in blocks
    ensures Growing(r, entry, blocks, pending)
  {
  }

  /** No block has an end that is missing from the graph. */
  ghost predicate NoGaps(blocks: map<int, Block>) {
    forall s :: s in blocks ==> Gap(blocks[s].successors) == None
  }

  ghost predicate SomeUndecoded(blocks: map<int, Block>) {
    exists s :: s in blocks && Gap(blocks[s].successors) == Some(FALL)
  }

  ghost function AllIndirectCalls(r: Region, blocks: map<int, Block>): set<int> {
    set s, a | s in blocks && a in IndirectCallsIn(r, blocks[s].instructions) :: a
  }

  lemma FlagsGrow(r: Region, blocks: map<int, Block>, start: int, b: Block)
    requires start !in blocks
    ensures NoGaps(blocks[start := b]) <==> NoGaps(blocks) && Gap(b.successors) == None
    ensures SomeUndecoded(blocks[start := b]) <==> SomeUndecoded(blocks) || Gap(b.successors) == Some(FALL)
    ensures AllIndirectCalls(r, blocks[start := b]) == AllIndirectCalls(r, blocks) + IndirectCallsIn(r, b.instructions)
  {
    hide Gap, IndirectCallsIn;
    var blocks' := blocks[start := b];
    forall s | s in blocks ensures s in blocks' && blocks'[s] == blocks[s] { }
    assert start in blocks' && blocks'[start] == b;
    forall a ensures a in AllIndirectCalls(r, blocks')
                     <==> a in AllIndirectCalls(r, blocks) + IndirectCallsIn(r, b.instructions) {
      if a in AllIndirectCalls(r, blocks) {
        var s :| s in blocks && a in IndirectCallsIn(r, blocks[s].instructions);
        assert s in blocks' && a in IndirectCallsIn(r, blocks'[s].instructions);
      }
    }
  }

  /** A graph built to the end, or cut at the block limit, is what it claims to be. */
  lemma BuiltIsOk(r: Region, cfg: FunctionCFG, pending: seq<int>)
    requires DisassemblerOk(r.image) && Growing(r, cfg.entry, cfg.blocks, pending)
    requires !cfg.truncated ==> pending == []
    requires cfg.complete <==> NoGaps(cfg.blocks) && !cfg.truncated
    requires cfg.reason == if cfg.truncated then Some(BlockLimit)
                           else if SomeUndecoded(cfg.blocks) then Some(Undecoded) else None
    ensures GraphOk(r, cfg)
  {
    hide Walk, Reachable;
    forall s | s in cfg.blocks
      ensures Gap(cfg.blocks[s].successors) == None <==>
              forall e :: e in cfg.blocks[s].successors && e.target.None? ==> e.kind == RET {
      assert IsBlock(r, s, cfg.blocks[s]);
      GapIsTheOnlyOne(r, s);
    }
    if !NoGaps(cfg.blocks) {
      var s :| s in cfg.blocks && Gap(cfg.blocks[s].successors) != None;
      var e :| e in cfg.blocks[s].successors && e.target.None? && e.kind != RET;
      assert (s, e.kind) in Unresolved(cfg);
    }
    forall e | !cfg.truncated && e in Edges(cfg) ensures e.2 in cfg.blocks {
      var x :| x in cfg.blocks[e.0].successors && x.target == Some(e.2);
    }
  }

  /** Build the graph of the function at `entry`, up to a number of blocks. */
  method BuildFunctionCfg(decoder: InstructionDecoder, functions: FunctionTable, entry: nat, maxBlocks: nat)
    returns (cfg: FunctionCFG, r: Region)
    requires decoder.Valid() && functions.Coherent()
    modifies decoder, decoder.sizeAt, functions`sorted, functions`extentsCache
    ensures decoder.Valid() && functions.Coherent()
    ensures r.image == decoder.image && cfg.entry == entry && GraphOk(r, cfg)
    ensures |cfg.blocks| <= maxBlocks && (cfg.truncated ==> |cfg.blocks| == maxBlocks && LeftOut(cfg))
    ensures cfg.indirectCalls == AllIndirectCalls(r, cfg.blocks)
    // the region ends where the function's extent does, if it has one
    ensures r.limit.Some? ==> r.limit.value > entry
    ensures entry in functions.starts ==> forall b :: entry <= b ==>
              (InExtent(functions.starts, functions.claimed, entry, b) <==> r.limit.Some? && b < r.limit.value)
    ensures entry !in functions.starts ==> r.limit == None
  {
    assert DisassemblerOk(decoder.image);
    hide InstructionDecoder.Valid, FunctionTable.Coherent, InExtent, DisassemblerOk;
    var extent := functions.ExtentOf(entry);
    r := Region(decoder.image, if extent != 0 then Some(entry + extent) else None);
    cfg := BuildBlocks(decoder, r, entry, maxBlocks);
  }

  method BuildBlocks(decoder: InstructionDecoder, r: Region, entry: int, maxBlocks: nat) returns (cfg: FunctionCFG)
    requires decoder.Valid() && decoder.image == r.image && DisassemblerOk(r.image)
    modifies decoder, decoder.sizeAt
    ensures decoder.Valid()
    ensures cfg.entry == entry && GraphOk(r, cfg)
    ensures |cfg.blocks| <= maxBlocks && (cfg.truncated ==> |cfg.blocks| == maxBlocks && LeftOut(cfg))
    ensures cfg.indirectCalls == AllIndirectCalls(r, cfg.blocks)
  {
    hide InstructionDecoder.Valid, DisassemblerOk, Walk, Reachable, Growing, NoGaps, SomeUndecoded;
    hide AllIndirectCalls, IsBlock, Targets, LeftOut, WantedBy, GraphOk;
    var blocks: map<int, Block> := map[];
    var complete, truncated, calls := true, false, {};
    var reason: Option<Reason> := None;
    var pending := [entry];
    NothingBuilt(r, entry);
    while pending != []
      invariant decoder.Valid() && !truncated
      invariant Growing(r, entry, blocks, pending) && |blocks| <= maxBlocks
      invariant Wanted(entry, blocks, pending)
      invariant complete <==> NoGaps(blocks)
      invariant reason == if SomeUndecoded(blocks) then Some(Undecoded) else None
      invariant calls == AllIndirectCalls(r, blocks)
      decreases maxBlocks - |blocks|, |pending|
    {
      var start, rest := pending[|pending| - 1], pending[..|pending| - 1];
      assert pending == rest + [start];
      if start in blocks {
        DropOne(r, entry, blocks, rest, start);
        pending := rest;
        continue;
      }
      if |blocks| >= maxBlocks {
        CutShort(entry, blocks, pending, start, FunctionCFG(entry, blocks, false, calls, true, Some(BlockLimit)));
        complete, truncated, reason := false, true, Some(BlockLimit);
        break;
      }
      var b, found := WalkBlock(decoder, r, start);
      GrowOne(r, entry, blocks, rest, start, b);
      WantMore(entry, blocks, rest, start, b);
      FlagsGrow(r, blocks, start, b);
      var gap := Gap(b.successors);
      if gap.Some? { complete := false; }
      if gap == Some(FALL) && reason.None? { reason := Some(Undecoded); }
      pending := rest + Targets(b.successors);
      blocks := blocks[start := b];
      calls := calls + found;
    }
    cfg := FunctionCFG(entry, blocks, complete, calls, truncated, reason);
    BuiltIsOk(r, cfg, pending);
  }

  /** Something that is an edge's destination, or the entry itself, has no block. */
  ghost predicate LeftOut(cfg: FunctionCFG) {
    cfg.entry !in cfg.blocks || exists e :: e in Edges(cfg) && e.2 !in cfg.blocks
  }

  /** What is pending is the entry or some block's destination. */
  ghost predicate Wanted(entry: int, blocks: map<int, Block>, pending: seq<int>) {
    forall a :: a in pending ==> a == entry || WantedBy(blocks, a)
  }

  ghost predicate WantedBy(blocks: map<int, Block>, a: int) {
    exists s, e :: s in blocks && e in blocks[s].successors && e.target == Some(a)
  }

  lemma WantMore(entry: int, blocks: map<int, Block>, pending: seq<int>, start: int, b: Block)
    requires Wanted(entry, blocks, pending) && start !in blocks
    ensures Wanted(entry, blocks[start := b], pending + Targets(b.successors))
  {
    var blocks' := blocks[start := b];
    forall a | a in pending + Targets(b.successors) ensures a == entry || WantedBy(blocks', a) {
      TargetsAre(b.successors, a);
      if a in pending && a != entry {
        var s, e :| s in blocks && e in blocks[s].successors && e.target == Some(a);
        assert s in blocks' && blocks'[s] == blocks[s];
      } else if a != entry {
        var e :| e in b.successors && e.target == Some(a);
        assert start in blocks' && blocks'[start] == b;
      }
    }
  }

  lemma CutShort(entry: int, blocks: map<int, Block>, pending: seq<int>, start: int, cfg: FunctionCFG)
    requires Wanted(entry, blocks, pending) && start in pending && start !in blocks
    requires cfg.entry == entry && cfg.blocks == blocks
    ensures LeftOut(cfg)
  {
    if start != entry {
      var s, e :| s in blocks && e in blocks[s].successors && e.target == Some(start);
      assert (s, e.kind, start) in Edges(cfg);
    }
  }

  lemma NothingBuilt(r: Region, entry: int)
    requires DisassemblerOk(r.image)
    ensures Growing(r, entry, map[], [entry]) && NoGaps(map[]) && !SomeUndecoded(map[])
    ensures AllIndirectCalls(r, map[]) == {}
  {
  }
}
