/** Recursive descent: the edges it follows, and the set it is to compute. */
module Descent {
  import opened Wrappers
  import opened Image
  import opened Functions
  import opened Consts

  datatype Xref = Xref(target: int, source: int, kind: RefKind)

  datatype Config = Config(maxInstructions: nat, maxTotalInstructions: nat, collectXrefs: bool)

  const MAX_TABLE: nat := 512

  // ----- what one instruction leads to -----

  predicate FallsThrough(insn: Insn) { !insn.isRet && !(insn.isJmp && !insn.isCond) }

  /** An entry of a jump table, if it holds an executable address. */
  function TableEntry(image: Image, base: int, index: nat): Option<nat> {
    match ReadPointer(image, base + index * image.slot)
    case None => None
    case Some(value) =>
      match VaToRva(image, value)
      case None => None
      case Some(rva) => if IsExec(image, rva) then Some(rva) else None
  }

  function TableTargets(image: Image, base: int, index: nat): set<nat>
    decreases MAX_TABLE - index
  {
    if index >= MAX_TABLE || TableEntry(image, base, index).None? then {}
    else {TableEntry(image, base, index).value} + TableTargets(image, base, index + 1)
  }

  function TableRefs(image: Image, base: int, index: nat): set<Xref>
    decreases MAX_TABLE - index
  {
    if index >= MAX_TABLE || TableEntry(image, base, index).None? then {}
    else {Xref(TableEntry(image, base, index).value, base + index * image.slot, DATA)}
         + TableRefs(image, base, index + 1)
  }

  /** A table is the longest run of executable entries, up to the limit. */
  lemma {:induction false} TableIsLongestRun(image: Image, base: int, index: nat, t: nat)
    ensures t in TableTargets(image, base, index) <==>
            exists k :: index <= k < MAX_TABLE && TableEntry(image, base, k) == Some(t)
                        && forall j :: index <= j <= k ==> TableEntry(image, base, j).Some?
    decreases MAX_TABLE - index
  {
    hide TableEntry;
    if index < MAX_TABLE && TableEntry(image, base, index).Some? {
      TableIsLongestRun(image, base, index + 1, t);
    } else if index < MAX_TABLE {
      assert TableEntry(image, base, index).None?;
    }
  }

  function RefTargets(image: Image, ref: (int, RefKind)): set<nat> {
    if ref.1 == IMMEDIATE && IsExec(image, ref.0) then ExecMember(image, ref.0)
    else if ref.1 == TABLE then TableTargets(image, ref.0, 0)
    else {}
  }

  function ExecMember(image: Image, rva: int): set<nat> { if IsExec(image, rva) then {rva as nat} else {} }

  function RefsTargets(image: Image, refs: seq<(int, RefKind)>): set<nat> {
    if refs == [] then {} else RefTargets(image, refs[0]) + RefsTargets(image, refs[1..])
  }

  function RefXrefs(image: Image, rva: nat, ref: (int, RefKind)): set<Xref> {
    {Xref(ref.0, rva, ref.1)} + if ref.1 == TABLE then TableRefs(image, ref.0, 0) else {}
  }

  function RefsXrefs(image: Image, rva: nat, refs: seq<(int, RefKind)>): set<Xref> {
    if refs == [] then {} else RefXrefs(image, rva, refs[0]) + RefsXrefs(image, rva, refs[1..])
  }

  /** Tables that a jump names through a memory operand without registers. */
  function JumpTargets(image: Image, insn: Insn, ops: seq<Operand>): set<nat> {
    if ops == [] then {}
    else (match MemoryAddress(insn, ops[0], image) case None => {} case Some(base) => TableTargets(image, base, 0))
         + JumpTargets(image, insn, ops[1..])
  }

  function JumpXrefs(image: Image, insn: Insn, ops: seq<Operand>): set<Xref> {
    if ops == [] then {}
    else (match MemoryAddress(insn, ops[0], image) case None => {} case Some(base) => TableRefs(image, base, 0))
         + JumpXrefs(image, insn, ops[1..])
  }

  /** Everything an instruction's operands queue. */
  function OperandTargets(image: Image, config: Config, insn: Insn): set<nat> {
    if !config.collectXrefs then {}
    else RefsTargets(image, ClassifyOperands(insn, insn.operands, image))
         + if insn.isJmp && !insn.isCall then JumpTargets(image, insn, insn.operands) else {}
  }

  function OperandXrefs(image: Image, config: Config, rva: nat, insn: Insn): set<Xref> {
    if !config.collectXrefs then {}
    else RefsXrefs(image, rva, ClassifyOperands(insn, insn.operands, image))
         + if insn.isJmp && !insn.isCall then JumpXrefs(image, insn, insn.operands) else {}
  }

  function DirectTarget(image: Image, insn: Insn): set<nat> {
    match BranchTarget(insn, image) case None => {} case Some(t) => ExecMember(image, t)
  }

  predicate IsIndirectAt(image: Image, rva: int) {
    InsnAt(image, rva).Some? && IsIndirectBranch(InsnAt(image, rva).value)
  }

  /** The branch references recorded for indirect branches: what resolving them added. */
  function ResolvedAmong(image: Image, xrefs: set<Xref>): set<Xref> {
    set x | x in xrefs && x.kind == BRANCH && IsIndirectAt(image, x.source)
  }

  // ----- the graph and reachability -----

  datatype Graph = Graph(image: Image, config: Config, resolved: set<Xref>)

  ghost predicate Edge(g: Graph, a: nat, b: nat) {
    InsnAt(g.image, a).Some? &&
    var insn := InsnAt(g.image, a).value;
    || (FallsThrough(insn) && b == a + insn.size)
    || b in DirectTarget(g.image, insn)
    || b in OperandTargets(g.image, g.config, insn)
    || (Xref(b, a, BRANCH) in g.resolved && IsIndirectBranch(insn))
  }

  ghost predicate IsPath(g: Graph, seeds: set<nat>, path: seq<nat>) {
    && |path| > 0 && path[0] in seeds
    && forall i :: 0 <= i < |path| - 1 ==> Edge(g, path[i], path[i + 1])
  }

  ghost predicate Reach(g: Graph, seeds: set<nat>, a: nat) {
    exists path :: IsPath(g, seeds, path) && path[|path| - 1] == a
  }

  ghost predicate Closed(g: Graph, s: set<nat>) {
    forall a, b :: a in s && Edge(g, a, b) ==> b in s
  }

  lemma ReachSeed(g: Graph, seeds: set<nat>, a: nat)
    requires a in seeds
    ensures Reach(g, seeds, a)
  {
    hide Edge;
    assert IsPath(g, seeds, [a]);
  }

  lemma ReachStep(g: Graph, seeds: set<nat>, a: nat, b: nat)
    requires Reach(g, seeds, a) && Edge(g, a, b)
    ensures Reach(g, seeds, b)
  {
    hide Edge;
    var path :| IsPath(g, seeds, path) && path[|path| - 1] == a;
    assert IsPath(g, seeds, path + [b]);
  }

  lemma EdgeGrows(g: Graph, g': Graph, a: nat, b: nat)
    requires g'.image == g.image && g'.config == g.config && g.resolved <= g'.resolved && Edge(g, a, b)
    ensures Edge(g', a, b)
  {
  }

  lemma ReachGrows(g: Graph, g': Graph, seeds: set<nat>, a: nat)
    requires g'.image == g.image && g'.config == g.config && g.resolved <= g'.resolved
    requires Reach(g, seeds, a)
    ensures Reach(g', seeds, a)
  {
    hide Edge;
    var path :| IsPath(g, seeds, path) && path[|path| - 1] == a;
    forall i | 0 <= i < |path| - 1 ensures Edge(g', path[i], path[i + 1]) {
      EdgeGrows(g, g', path[i], path[i + 1]);
    }
    assert IsPath(g', seeds, path);
  }

  lemma {:induction false} PathStaysInside(g: Graph, seeds: set<nat>, s: set<nat>, path: seq<nat>)
    requires seeds <= s && Closed(g, s) && IsPath(g, seeds, path)
    ensures path[|path| - 1] in s
    decreases |path|
  {
    hide Edge;
    if |path| > 1 {
      var init := path[..|path| - 1];
      assert forall i :: 0 <= i < |init| - 1 ==> Edge(g, init[i], init[i + 1]) by {
        forall i | 0 <= i < |init| - 1 ensures Edge(g, init[i], init[i + 1]) {
          assert Edge(g, path[i], path[i + 1]);
        }
      }
      PathStaysInside(g, seeds, s, init);
      assert Edge(g, path[|path| - 2], path[|path| - 1]);
    }
  }

  /** The set a completed run is to visit: closed, and no larger than it has to be. */
  ghost predicate IsFixpoint(g: Graph, seeds: set<nat>, visited: set<nat>) {
    seeds <= visited && Closed(g, visited) && forall a :: a in visited ==> Reach(g, seeds, a)
  }

  /** It is the least closed set with the seeds in it. */
  lemma FixpointIsLeast(g: Graph, seeds: set<nat>, visited: set<nat>, s: set<nat>)
    requires IsFixpoint(g, seeds, visited) && seeds <= s && Closed(g, s)
    ensures visited <= s
  {
    hide Closed;
    forall a | a in visited ensures a in s {
      var path :| IsPath(g, seeds, path) && path[|path| - 1] == a;
      PathStaysInside(g, seeds, s, path);
    }
  }

  /** So whatever order seeds and batches were taken in, two completed runs that resolved the
      same indirect branches visit the same addresses; in particular two that resolved none. */
  lemma OrderDoesNotMatter(g: Graph, seeds: set<nat>, visited1: set<nat>, visited2: set<nat>)
    requires IsFixpoint(g, seeds, visited1) && IsFixpoint(g, seeds, visited2)
    ensures visited1 == visited2
  {
    FixpointIsLeast(g, seeds, visited1, visited2);
    FixpointIsLeast(g, seeds, visited2, visited1);
  }

  /** More resolved branches, more visited addresses. */
  lemma ResolvingOnlyAdds(g: Graph, g': Graph, seeds: set<nat>, visited: set<nat>, visited': set<nat>)
    requires g'.image == g.image && g'.config == g.config && g.resolved <= g'.resolved
    requires IsFixpoint(g, seeds, visited) && IsFixpoint(g', seeds, visited')
    ensures visited <= visited'
  {
    hide Reach, Edge;
    forall a, b | a in visited' && Edge(g, a, b) ensures b in visited' {
      EdgeGrows(g, g', a, b);
    }
    FixpointIsLeast(g, seeds, visited, visited');
  }

  // ----- the edges, said without the sets that are queued -----

  /** A table's entry is the address of executable code stored in its slot. */
  predicate HoldsCode(image: Image, base: int, k: nat, t: int) {
    image.pointers(base + k * image.slot) == Some(image.base + t) && 0 <= t < Span(image) && IsExec(image, t)
  }

  ghost predicate SomeCode(image: Image, base: int, k: nat) { exists t :: HoldsCode(image, base, k, t) }

  /** Entry `k` of a table: within the first 512, and all before it hold code as well. */
  ghost predicate IsEntry(image: Image, base: int, k: nat, t: int) {
    k < 512 && HoldsCode(image, base, k, t) && forall j: nat :: j < k ==> SomeCode(image, base, j)
  }

  /** An operand by which an instruction names a table: a scaled index on it, or, for a jump, the
      address itself. */
  predicate NamesTable(image: Image, insn: Insn, op: Operand, base: int) {
    || Refers(insn, op, image, (base, TABLE))
    || (insn.isJmp && !insn.isCall && Refers(insn, op, image, (base, MEMORY)))
  }

  ghost predicate TableOf(image: Image, insn: Insn, base: int) {
    exists op :: op in insn.operands && NamesTable(image, insn, op, base)
  }

  lemma EntryHoldsCode(image: Image, base: int, k: nat, t: nat)
    ensures TableEntry(image, base, k) == Some(t) <==> HoldsCode(image, base, k, t)
  {
    hide Span, IsExec;
    if HoldsCode(image, base, k, t) { assert VaToRva(image, image.base + t) == Some(t); }
  }

  lemma SomeEntry(image: Image, base: int, k: nat)
    ensures TableEntry(image, base, k).Some? <==> SomeCode(image, base, k)
  {
    hide HoldsCode, TableEntry;
    if TableEntry(image, base, k).Some? { EntryHoldsCode(image, base, k, TableEntry(image, base, k).value); }
    if SomeCode(image, base, k) {
      var t :| HoldsCode(image, base, k, t);
      NotNegative(image, base, k, t);
      EntryHoldsCode(image, base, k, t);
    }
  }

  lemma NotNegative(image: Image, base: int, k: nat, t: int)
    requires HoldsCode(image, base, k, t)
    ensures t >= 0
  {
  }

  lemma TableTargetsExactly(image: Image, base: int, t: nat)
    ensures t in TableTargets(image, base, 0) <==> exists k: nat :: IsEntry(image, base, k, t)
  {
    hide HoldsCode, TableEntry, TableTargets;
    TableIsLongestRun(image, base, 0, t);
    forall k: nat ensures TableEntry(image, base, k) == Some(t) <==> HoldsCode(image, base, k, t) {
      EntryHoldsCode(image, base, k, t);
    }
    forall k: nat ensures TableEntry(image, base, k).Some? <==> SomeCode(image, base, k) { SomeEntry(image, base, k); }
    if t in TableTargets(image, base, 0) {
      var k :| 0 <= k < MAX_TABLE && TableEntry(image, base, k) == Some(t)
               && forall j :: 0 <= j <= k ==> TableEntry(image, base, j).Some?;
      assert IsEntry(image, base, k, t);
    }
    if k: nat :| IsEntry(image, base, k, t) {
      forall j | 0 <= j <= k ensures TableEntry(image, base, j).Some? { }
    }
  }

  lemma {:induction false} TableRefsExactly(image: Image, base: int, index: nat, x: Xref)
    ensures x in TableRefs(image, base, index) <==>
            x.kind == DATA
            && exists k: nat :: index <= k < 512 && HoldsCode(image, base, k, x.target)
                                && x.source == base + k * image.slot
                                && forall j: nat :: index <= j < k ==> SomeCode(image, base, j)
    decreases 512 - index
  {
    hide HoldsCode, TableEntry, SomeCode;
    SomeEntry(image, base, index);
    if index < MAX_TABLE && TableEntry(image, base, index).Some? {
      var t := TableEntry(image, base, index).value;
      EntryHoldsCode(image, base, index, t);
      TableRefsExactly(image, base, index + 1, x);
      forall u | HoldsCode(image, base, index, u) ensures u == t {
        NotNegative(image, base, index, u);
        EntryHoldsCode(image, base, index, u);
      }
    } else if index < MAX_TABLE {
      forall u ensures !HoldsCode(image, base, index, u) { NothingThere(image, base, index, u); }
    }
  }

  lemma NothingThere(image: Image, base: int, k: nat, t: int)
    requires !SomeCode(image, base, k)
    ensures !HoldsCode(image, base, k, t)
  {
  }

  lemma {:induction false} RefsTargetsExactly(image: Image, refs: seq<(int, RefKind)>, t: nat)
    ensures t in RefsTargets(image, refs) <==>
            || ((t as int, IMMEDIATE) in refs && IsExec(image, t))
            || exists base :: (base, TABLE) in refs && t in TableTargets(image, base, 0)
  {
    hide TableTargets, IsExec;
    if refs != [] {
      RefsTargetsExactly(image, refs[1..], t);
      assert refs == [refs[0]] + refs[1..];
    }
  }

  lemma {:induction false} JumpTargetsExactly(image: Image, insn: Insn, ops: seq<Operand>, t: nat)
    ensures t in JumpTargets(image, insn, ops) <==>
            exists op, base :: op in ops && MemoryAddress(insn, op, image) == Some(base)
                               && t in TableTargets(image, base, 0)
  {
    hide TableTargets, MemoryAddress;
    if ops != [] {
      JumpTargetsExactly(image, insn, ops[1..], t);
      assert ops == [ops[0]] + ops[1..];
    }
  }

  /** What an instruction's operands queue: executable immediates, and the entries of the tables
      they name. */
  lemma OperandTargetsExactly(image: Image, config: Config, insn: Insn, t: nat)
    ensures t in OperandTargets(image, config, insn) <==>
            config.collectXrefs
            && (|| (IsExec(image, t)
                    && exists op :: op in insn.operands && Refers(insn, op, image, (t as int, IMMEDIATE)))
                || exists base, k: nat :: TableOf(image, insn, base) && IsEntry(image, base, k, t))
  {
    hide RefsTargets, JumpTargets, TableTargets, ClassifyOperands, Refers, IsEntry, IsExec, MemoryAddress;
    var refs := ClassifyOperands(insn, insn.operands, image);
    RefsTargetsExactly(image, refs, t);
    JumpTargetsExactly(image, insn, insn.operands, t);
    forall ref ensures ref in refs <==> exists op :: op in insn.operands && Refers(insn, op, image, ref) {
      ReferenceFromOperand(insn, insn.operands, image, ref);
    }
    forall base ensures t in TableTargets(image, base, 0) <==> exists k: nat :: IsEntry(image, base, k, t) {
      TableTargetsExactly(image, base, t);
    }
    forall op, base ensures MemoryAddress(insn, op, image) == Some(base) <==> Refers(insn, op, image, (base, MEMORY)) {
      AddressRefers(insn, op, image, base);
    }
    if config.collectXrefs && t in OperandTargets(image, config, insn) {
      if t in RefsTargets(image, refs) {
        if !((t as int, IMMEDIATE) in refs && IsExec(image, t)) {
          var base :| (base, TABLE) in refs && t in TableTargets(image, base, 0);
          var op :| op in insn.operands && Refers(insn, op, image, (base, TABLE));
          assert NamesTable(image, insn, op, base) && TableOf(image, insn, base);
        }
      } else {
        var op, base :| op in insn.operands && MemoryAddress(insn, op, image) == Some(base)
                        && t in TableTargets(image, base, 0);
        assert NamesTable(image, insn, op, base) && TableOf(image, insn, base);
      }
    }
    if base, k: nat :| TableOf(image, insn, base) && IsEntry(image, base, k, t) {
      var op :| op in insn.operands && NamesTable(image, insn, op, base);
    }
  }

  /** Control goes from an instruction to where it falls through, to the executable address it
      branches to, to what its operands queue, and to what it was resolved to. */
  lemma EdgeExactly(g: Graph, a: nat, b: nat)
    ensures Edge(g, a, b) <==>
            InsnAt(g.image, a).Some?
            && var insn := InsnAt(g.image, a).value;
               || (!insn.isRet && (!insn.isJmp || insn.isCond) && b == a + insn.size)
               || ((insn.isCall || insn.isJmp) && FirstImm(insn.operands) == Some(g.image.base + b)
                   && b < Span(g.image) && IsExec(g.image, b))
               || (g.config.collectXrefs
                   && (|| (IsExec(g.image, b)
                           && exists op :: op in insn.operands && Refers(insn, op, g.image, (b as int, IMMEDIATE)))
                       || exists base, k: nat :: TableOf(g.image, insn, base) && IsEntry(g.image, base, k, b)))
               || (Xref(b, a, BRANCH) in g.resolved && (insn.isCall || insn.isJmp)
                   && forall op :: op in insn.operands ==> op.kind != IMM)
  {
    hide OperandTargets, BranchTarget, Refers, TableOf, IsEntry, IsExec, Span, InsnAt;
    if InsnAt(g.image, a).Some? {
      var insn := InsnAt(g.image, a).value;
      OperandTargetsExactly(g.image, g.config, insn, b);
      TargetExactly(insn, g.image, insn.operands, b);
      if BranchTarget(insn, g.image).Some? {
        TargetExactly(insn, g.image, insn.operands, BranchTarget(insn, g.image).value);
      }
    }
  }

  lemma {:induction false} RefsXrefsExactly(image: Image, rva: nat, refs: seq<(int, RefKind)>, x: Xref)
    ensures x in RefsXrefs(image, rva, refs) <==>
            || (x.source == rva && (x.target, x.kind) in refs)
            || exists base :: (base, TABLE) in refs && x in TableRefs(image, base, 0)
  {
    hide TableRefs;
    if refs != [] {
      RefsXrefsExactly(image, rva, refs[1..], x);
      assert refs == [refs[0]] + refs[1..];
    }
  }

  lemma {:induction false} JumpXrefsExactly(image: Image, insn: Insn, ops: seq<Operand>, x: Xref)
    ensures x in JumpXrefs(image, insn, ops) <==>
            exists op, base :: op in ops && MemoryAddress(insn, op, image) == Some(base)
                               && x in TableRefs(image, base, 0)
  {
    hide TableRefs, MemoryAddress;
    if ops != [] {
      JumpXrefsExactly(image, insn, ops[1..], x);
      assert ops == [ops[0]] + ops[1..];
    }
  }

  /** The slot of an entry refers to what it holds. */
  ghost predicate EntryRefers(image: Image, base: int, x: Xref) {
    x.kind == DATA && exists k: nat :: IsEntry(image, base, k, x.target) && x.source == base + k * image.slot
  }

  /** The references recorded for an instruction: those its operands make, and those the tables
      they name make to their entries. */
  lemma OperandXrefsExactly(image: Image, config: Config, rva: nat, insn: Insn, x: Xref)
    ensures x in OperandXrefs(image, config, rva, insn) <==>
            config.collectXrefs
            && (|| (x.source == rva && exists op :: op in insn.operands && Refers(insn, op, image, (x.target, x.kind)))
                || exists base :: TableOf(image, insn, base) && EntryRefers(image, base, x))
  {
    hide RefsXrefs, JumpXrefs, TableRefs, ClassifyOperands, Refers, EntryRefers, MemoryAddress;
    var refs := ClassifyOperands(insn, insn.operands, image);
    RefsXrefsExactly(image, rva, refs, x);
    JumpXrefsExactly(image, insn, insn.operands, x);
    forall ref ensures ref in refs <==> exists op :: op in insn.operands && Refers(insn, op, image, ref) {
      ReferenceFromOperand(insn, insn.operands, image, ref);
    }
    forall base ensures x in TableRefs(image, base, 0) <==> EntryRefers(image, base, x) {
      EntryRefersExactly(image, base, x);
    }
    forall op, base ensures MemoryAddress(insn, op, image) == Some(base) <==> Refers(insn, op, image, (base, MEMORY)) {
      AddressRefers(insn, op, image, base);
    }
    if config.collectXrefs && x in OperandXrefs(image, config, rva, insn) {
      if x in RefsXrefs(image, rva, refs) {
        if !(x.source == rva && (x.target, x.kind) in refs) {
          var base :| (base, TABLE) in refs && x in TableRefs(image, base, 0);
          var op :| op in insn.operands && Refers(insn, op, image, (base, TABLE));
          assert NamesTable(image, insn, op, base) && TableOf(image, insn, base);
        }
      } else {
        var op, base :| op in insn.operands && MemoryAddress(insn, op, image) == Some(base)
                        && x in TableRefs(image, base, 0);
        assert NamesTable(image, insn, op, base) && TableOf(image, insn, base);
      }
    }
    if base :| TableOf(image, insn, base) && EntryRefers(image, base, x) {
      var op :| op in insn.operands && NamesTable(image, insn, op, base);
    }
  }

  lemma EntryRefersExactly(image: Image, base: int, x: Xref)
    ensures x in TableRefs(image, base, 0) <==> EntryRefers(image, base, x)
  {
    hide HoldsCode, TableRefs, SomeCode;
    TableRefsExactly(image, base, 0, x);
    if x in TableRefs(image, base, 0) {
      var k: nat :| k < 512 && HoldsCode(image, base, k, x.target) && x.source == base + k * image.slot
                    && forall j: nat :: j < k ==> SomeCode(image, base, j);
      assert IsEntry(image, base, k, x.target);
    }
    if EntryRefers(image, base, x) {
      var k: nat :| IsEntry(image, base, k, x.target) && x.source == base + k * image.slot;
      assert HoldsCode(image, base, k, x.target);
    }
  }

  // ----- a run in progress -----

  /** Queued addresses, those of them still waiting, what was decoded with its size, what did
      not decode, the references recorded, and the indirect branches left unresolved. */
  datatype Progress = Progress(queued: set<nat>, waiting: set<nat>, claimed: Sizes, undecodable: set<nat>,
                               xrefs: set<Xref>, sites: set<nat>)

  ghost function Visited(p: Progress): set<nat> { p.claimed.Keys + p.undecodable }

  function Queue(p: Progress, targets: set<nat>): Progress {
    p.(queued := p.queued + targets, waiting := p.waiting + (targets - p.queued))
  }

  function Refer(p: Progress, refs: set<Xref>): Progress { p.(xrefs := p.xrefs + refs) }

  lemma QueueTwice(p: Progress, a: set<nat>, b: set<nat>)
    ensures Queue(Queue(p, a), b) == Queue(p, a + b) && Queue(p, {}) == p
  {
  }

  lemma ReferTwice(p: Progress, x: set<Xref>, y: set<Xref>, a: set<nat>)
    ensures Refer(Refer(p, x), y) == Refer(p, x + y) && Refer(p, {}) == p
    ensures Refer(Queue(p, a), x) == Queue(Refer(p, x), a)
  {
  }

  /** Visiting an instruction: its bytes, its references, and its branch. */
  function AfterInsn(image: Image, config: Config, p: Progress, rva: nat, insn: Insn, resolved: Option<int>): Progress {
    var p1 := Refer(p.(claimed := p.claimed[rva := insn.size]), OperandXrefs(image, config, rva, insn));
    var p2 := Queue(p1, OperandTargets(image, config, insn));
    AfterBranch(image, p2, rva, insn, resolved)
  }

  function AfterBranch(image: Image, p: Progress, rva: nat, insn: Insn, resolved: Option<int>): Progress {
    if BranchTarget(insn, image).None? && IsIndirectBranch(insn) then
      match resolved
      case None => p.(sites := p.sites + {rva})
      case Some(t) => Queue(Refer(p, {Xref(t, rva, BRANCH)}), ExecMember(image, t))
    else Queue(p, DirectTarget(image, insn))
  }

  /** A run of instructions, each falling through to the next, that ends where `rva` begins. */
  ghost predicate StraightLine(image: Image, run: seq<Insn>, rva: int) {
    run == [] ||
    var last := run[|run| - 1];
    && InsnAt(image, last.address - image.base) == Some(last) && FallsThrough(last)
    && last.address + last.size == image.base + rva
    && StraightLine(image, run[..|run| - 1], last.address - image.base)
  }

  /** An indirect branch was resolved by propagating constants along a straight line to it. */
  ghost predicate Traced(image: Image, rva: nat, target: int) {
    IsIndirectAt(image, rva) && exists run :: ResolvedAlong(image, run, rva, target)
  }

  /** A sweep comes from a queued address to `rva` along a run. */
  ghost predicate SweptTo(image: Image, queued: set<nat>, run: seq<Insn>, rva: int) {
    && StraightLine(image, run, rva)
    && exists start :: start in queued && start == if run == [] then rva else run[0].address - image.base
  }

  /** Propagating constants from a queued address does not resolve the branch. */
  ghost predicate Untraceable(image: Image, queued: set<nat>, rva: nat) {
    IsIndirectAt(image, rva) && exists run :: OpenAlong(image, queued, run, rva)
  }

  ghost predicate OpenAlong(image: Image, queued: set<nat>, run: seq<Insn>, rva: nat)
    requires IsIndirectAt(image, rva)
  {
    && SweptTo(image, queued, run, rva)
    && ResolveBranch(image, ObservedAll(image, run), InsnAt(image, rva).value) == None
  }

  ghost predicate ResolvedAlong(image: Image, run: seq<Insn>, rva: nat, target: int)
    requires IsIndirectAt(image, rva)
  {
    && StraightLine(image, run, rva)
    && ResolveBranch(image, ObservedAll(image, run), InsnAt(image, rva).value) == Some(target)
  }

  /** In every machine that runs `run`, the branch behind it goes to the target: whatever the
      registers held before, its memory operand holds the target's address. */
  ghost predicate AlwaysGoesTo(image: Image, run: seq<Insn>, branch: Insn, target: int) {
    forall overlap: Overlap, states: seq<Machine>, op: Operand ::
      StraightLineRun(overlap, image, run, states) && op in branch.operands
      && (forall o :: o in branch.operands && o.kind == MEM ==> o == op)
      && SegmentPart(states[|run|], op) % Modulus(image) == 0 ==>
        states[|run|].mem(EffectiveAddress(image, states[|run|], branch, op)) == RvaToVa(image, target)
  }

  /** So an edge the sweep adds for an indirect branch is one the program takes. */
  lemma TracedBranchIsReal(image: Image, rva: int, target: int) returns (run: seq<Insn>)
    requires ImageOk(image) && IsIndirectAt(image, rva) && Traced(image, rva, target)
    ensures StraightLine(image, run, rva) && AlwaysGoesTo(image, run, InsnAt(image, rva).value, target)
    ensures IsExec(image, target)
  {
    hide StraightLineRun, ObservedAll, StraightLine;
    run :| ResolvedAlong(image, run, rva, target);
    var branch := InsnAt(image, rva).value;
    ResolvedIsExec(image, ObservedAll(image, run), branch, branch.operands);
    forall overlap: Overlap, states: seq<Machine>, op: Operand |
      StraightLineRun(overlap, image, run, states) && op in branch.operands
      && (forall o :: o in branch.operands && o.kind == MEM ==> o == op)
      && |states| == |run| + 1 && SegmentPart(states[|run|], op) % Modulus(image) == 0
      ensures states[|run|].mem(EffectiveAddress(image, states[|run|], branch, op)) == RvaToVa(image, target) {
      ResolvedBranchIsReal(overlap, image, run, states, branch, op, target);
    }
    forall overlap: Overlap, states: seq<Machine> | StraightLineRun(overlap, image, run, states)
      ensures |states| == |run| + 1 {
      RunLength(overlap, image, run, states);
    }
  }

  lemma {:induction false} ResolvedIsExec(image: Image, known: Known, insn: Insn, ops: seq<Operand>)
    ensures ResolveAmong(image, known, insn, ops).Some? ==> IsExec(image, ResolveAmong(image, known, insn, ops).value)
  {
  }

  ghost function GraphOf(image: Image, config: Config, p: Progress): Graph {
    Graph(image, config, ResolvedAmong(image, p.xrefs))
  }

  /** What has been done for a visited instruction, apart from its fallthrough. */
  ghost predicate Followed(image: Image, config: Config, p: Progress, a: nat) {
    InsnAt(image, a).Some? &&
    var insn := InsnAt(image, a).value;
    && DirectTarget(image, insn) <= p.queued && OperandTargets(image, config, insn) <= p.queued
    && OperandXrefs(image, config, a, insn) <= p.xrefs
    && (IsIndirectBranch(insn) ==> a in p.sites || exists t :: Xref(t, a, BRANCH) in p.xrefs)
  }

  /** A recorded reference is an operand of a decoded instruction, a resolved branch, or a
      pointer the image holds. */
  ghost predicate Justified(image: Image, p: Progress, x: Xref) {
    if x.kind == DATA then
      ReadPointer(image, x.source).Some? && VaToRva(image, ReadPointer(image, x.source).value) == Some(x.target)
    else
      && x.source in p.claimed && InsnAt(image, x.source).Some?
      && var insn := InsnAt(image, x.source).value;
         || (x.target, x.kind) in ClassifyOperands(insn, insn.operands, image)
         || (x.kind == BRANCH && Traced(image, x.source, x.target) && x.target in p.queued)
  }

  /** Always: nothing is made up. `current` holds the addresses about to be visited. */
  ghost predicate Sound(image: Image, config: Config, seeds: set<nat>, p: Progress, current: set<nat>) {
    && (forall a :: a in p.queued ==> IsExec(image, a)) && p.waiting <= p.queued
    && (forall a :: a in p.claimed ==> Followed(image, config, p, a) && p.claimed[a] == InsnAt(image, a).value.size)
    && (forall a :: a in p.undecodable ==> InsnAt(image, a).None?)
    && (forall x :: x in p.xrefs ==> Justified(image, p, x))
    && (forall a :: a in p.sites ==> LeftOpen(image, p, a))
    && (forall a :: a in p.queued || a in current || a in Visited(p) ==> Reach(GraphOf(image, config, p), seeds, a))
  }

  /** A site is a decoded indirect branch that constants did not resolve. */
  ghost predicate LeftOpen(image: Image, p: Progress, a: nat) {
    a in p.claimed && IsIndirectAt(image, a) && Untraceable(image, p.queued, a)
  }

  /** Unless a budget ran out: nothing is forgotten. */
  ghost predicate Complete(image: Image, seeds: set<nat>, p: Progress, current: set<nat>) {
    && seeds <= p.queued
    && p.queued <= Visited(p) + p.waiting + current
    && FallthroughsIn(image, p.claimed.Keys, Visited(p) + current)
  }

  /** Behind each of the instructions that fall through comes an address of the set. */
  ghost predicate FallthroughsIn(image: Image, claimed: set<nat>, into: set<nat>) {
    forall a :: a in claimed && InsnAt(image, a).Some? && FallsThrough(InsnAt(image, a).value) ==>
      a + InsnAt(image, a).value.size in into
  }

  // ----- visiting one instruction keeps both -----

  lemma {:induction false} TableEntriesHold(image: Image, base: int, index: nat)
    ensures forall t :: t in TableTargets(image, base, index) ==> IsExec(image, t)
    ensures forall x :: x in TableRefs(image, base, index) ==>
              x.kind == DATA && ReadPointer(image, x.source).Some?
              && VaToRva(image, ReadPointer(image, x.source).value) == Some(x.target)
    decreases MAX_TABLE - index
  {
    if index < MAX_TABLE && TableEntry(image, base, index).Some? { TableEntriesHold(image, base, index + 1); }
  }

  ghost predicate FromOperands(image: Image, rva: nat, refs: seq<(int, RefKind)>, x: Xref) {
    if x.kind == DATA then
      ReadPointer(image, x.source).Some? && VaToRva(image, ReadPointer(image, x.source).value) == Some(x.target)
    else x.source == rva && (x.target, x.kind) in refs
  }

  lemma {:induction false} RefsHold(image: Image, rva: nat, refs: seq<(int, RefKind)>)
    requires forall ref :: ref in refs ==> ref.1 != DATA
    ensures forall t :: t in RefsTargets(image, refs) ==> IsExec(image, t)
    ensures forall x :: x in RefsXrefs(image, rva, refs) ==> FromOperands(image, rva, refs, x)
  {
    if refs != [] {
      RefsHold(image, rva, refs[1..]);
      TableEntriesHold(image, refs[0].0, 0);
      hide TableTargets, TableRefs, IsExec, VaToRva;
      forall x | x in RefsXrefs(image, rva, refs) ensures FromOperands(image, rva, refs, x) {
        if x in RefsXrefs(image, rva, refs[1..]) { assert FromOperands(image, rva, refs[1..], x); }
      }
    }
  }

  lemma {:induction false} JumpsHold(image: Image, insn: Insn, ops: seq<Operand>)
    ensures forall t :: t in JumpTargets(image, insn, ops) ==> IsExec(image, t)
    ensures forall x :: x in JumpXrefs(image, insn, ops) ==>
              x.kind == DATA && ReadPointer(image, x.source).Some?
              && VaToRva(image, ReadPointer(image, x.source).value) == Some(x.target)
  {
    if ops != [] {
      JumpsHold(image, insn, ops[1..]);
      if MemoryAddress(insn, ops[0], image).Some? {
        TableEntriesHold(image, MemoryAddress(insn, ops[0], image).value, 0);
      }
    }
  }

  lemma {:induction false} NoDataFromOperands(insn: Insn, ops: seq<Operand>, image: Image)
    ensures forall ref :: ref in ClassifyOperands(insn, ops, image) ==> ref.1 != DATA
  {
    if ops != [] { NoDataFromOperands(insn, ops[1..], image); }
  }

  lemma OperandsHold(image: Image, config: Config, rva: nat, insn: Insn)
    ensures forall t :: t in OperandTargets(image, config, insn) ==> IsExec(image, t)
    ensures forall x :: x in OperandXrefs(image, config, rva, insn) ==>
              FromOperands(image, rva, ClassifyOperands(insn, insn.operands, image), x)
  {
    NoDataFromOperands(insn, insn.operands, image);
    RefsHold(image, rva, ClassifyOperands(insn, insn.operands, image));
    JumpsHold(image, insn, insn.operands);
  }

  /** What is known when an instruction is visited. */
  ghost predicate CanVisit(image: Image, queued: set<nat>, rva: nat, insn: Insn, resolved: Option<int>) {
    && InsnAt(image, rva) == Some(insn)
    && (resolved.Some? ==> Traced(image, rva, resolved.value) && IsExec(image, resolved.value))
    && (IsIndirectBranch(insn) && resolved.None? ==> Untraceable(image, queued, rva))
  }

  lemma VisitGrows(image: Image, config: Config, p: Progress, rva: nat, insn: Insn, resolved: Option<int>)
    requires CanVisit(image, p.queued, rva, insn, resolved)
    ensures var p' := AfterInsn(image, config, p, rva, insn, resolved);
            && p.queued <= p'.queued && p.xrefs <= p'.xrefs && p.sites <= p'.sites
            && p'.claimed == p.claimed[rva := insn.size] && p'.undecodable == p.undecodable
            && (p.waiting <= p.queued ==> p'.waiting <= p'.queued)
            && p'.queued - p.queued <= p'.waiting && p.waiting <= p'.waiting
            && Followed(image, config, p', rva)
  {
    hide IsExec, OperandTargets, OperandXrefs, BranchTarget, Traced;
    if BranchTarget(insn, image).None? && IsIndirectBranch(insn) && resolved.Some? {
      assert Xref(resolved.value, rva, BRANCH) in AfterInsn(image, config, p, rva, insn, resolved).xrefs;
    }
    if IsIndirectBranch(insn) { IndirectIsNotDirect(image, insn); }
  }

  lemma IndirectIsNotDirect(image: Image, insn: Insn)
    requires IsIndirectBranch(insn)
    ensures BranchTarget(insn, image) == None && DirectTarget(image, insn) == {}
    ensures forall ref :: ref in ClassifyOperands(insn, insn.operands, image) ==> ref.1 != BRANCH
  {
    IndirectHasNoTarget(insn, image, insn.operands);
  }

  lemma VisitQueues(image: Image, config: Config, p: Progress, rva: nat, insn: Insn, resolved: Option<int>, b: nat)
    requires CanVisit(image, p.queued, rva, insn, resolved)
    requires b in AfterInsn(image, config, p, rva, insn, resolved).queued && b !in p.queued
    ensures IsExec(image, b)
    ensures Edge(GraphOf(image, config, AfterInsn(image, config, p, rva, insn, resolved)), rva, b)
  {
    hide TableTargets, OperandTargets, OperandXrefs;
    OperandsHold(image, config, rva, insn);
  }

  lemma VisitRecords(image: Image, config: Config, p: Progress, rva: nat, insn: Insn, resolved: Option<int>, x: Xref)
    requires CanVisit(image, p.queued, rva, insn, resolved)
    requires x in AfterInsn(image, config, p, rva, insn, resolved).xrefs && x !in p.xrefs
    ensures Justified(image, AfterInsn(image, config, p, rva, insn, resolved), x)
  {
    hide TableTargets, OperandTargets, OperandXrefs, Traced;
    OperandsHold(image, config, rva, insn);
  }

  lemma VisitSound(image: Image, config: Config, seeds: set<nat>, p: Progress, rest: set<nat>,
                   rva: nat, insn: Insn, resolved: Option<int>)
    requires Sound(image, config, seeds, p, {rva} + rest) && CanVisit(image, p.queued, rva, insn, resolved)
    ensures Sound(image, config, seeds, AfterInsn(image, config, p, rva, insn, resolved),
                  (if FallsThrough(insn) then {rva + insn.size} else {}) + rest)
  {
    hide AfterInsn, Reach, IsExec;
    var p' := AfterInsn(image, config, p, rva, insn, resolved);
    var next := if FallsThrough(insn) then {rva + insn.size} else {};
    var g, g' := GraphOf(image, config, p), GraphOf(image, config, p');
    VisitGrows(image, config, p, rva, insn, resolved);
    forall a | a in p'.queued || a in next + rest || a in Visited(p') ensures Reach(g', seeds, a) {
      ReachGrows(g, g', seeds, rva);
      if a in p.queued || a in rest || a in Visited(p) { ReachGrows(g, g', seeds, a); }
      else if a in p'.queued {
        VisitQueues(image, config, p, rva, insn, resolved, a);
        ReachStep(g', seeds, rva, a);
      } else if a in next {
        ReachStep(g', seeds, rva, a);
      }
    }
    VisitSoundRest(image, config, seeds, p, rest, rva, insn, resolved);
  }

  lemma VisitSoundRest(image: Image, config: Config, seeds: set<nat>, p: Progress, rest: set<nat>,
                       rva: nat, insn: Insn, resolved: Option<int>)
    requires Sound(image, config, seeds, p, {rva} + rest) && CanVisit(image, p.queued, rva, insn, resolved)
    ensures var p' := AfterInsn(image, config, p, rva, insn, resolved);
      && (forall a :: a in p'.queued ==> IsExec(image, a)) && p'.waiting <= p'.queued
      && (forall a :: a in p'.claimed ==>
                Followed(image, config, p', a) && p'.claimed[a] == InsnAt(image, a).value.size)
      && (forall a :: a in p'.undecodable ==> InsnAt(image, a).None?)
      && (forall x :: x in p'.xrefs ==> Justified(image, p', x))
      && (forall a :: a in p'.sites ==> LeftOpen(image, p', a))
  {
    hide AfterInsn, Reach, IsExec, InsnAt, OperandTargets, OperandXrefs, DirectTarget, LeftOpen;
    var p' := AfterInsn(image, config, p, rva, insn, resolved);
    VisitGrows(image, config, p, rva, insn, resolved);
    forall a | a in p'.queued ensures IsExec(image, a) {
      if a !in p.queued { VisitQueues(image, config, p, rva, insn, resolved, a); }
    }
    forall a | a in p'.claimed ensures Followed(image, config, p', a) && p'.claimed[a] == InsnAt(image, a).value.size {
      if a != rva {
        assert Followed(image, config, p, a);
        FollowedGrows(image, config, p, p', a);
      }
    }
    forall x | x in p'.xrefs ensures Justified(image, p', x) {
      if x in p.xrefs { JustifiedGrows(image, p, p', x); }
      else { VisitRecords(image, config, p, rva, insn, resolved, x); }
    }
    forall a | a in p'.sites ensures LeftOpen(image, p', a) {
      if a in p.sites {
        LeftOpenGrows(image, p, p', a);
      } else {
        VisitLeaves(image, config, p, rva, insn, resolved, a);
      }
    }
  }

  lemma VisitLeaves(image: Image, config: Config, p: Progress, rva: nat, insn: Insn, resolved: Option<int>, a: nat)
    requires CanVisit(image, p.queued, rva, insn, resolved)
    requires a in AfterInsn(image, config, p, rva, insn, resolved).sites && a !in p.sites
    ensures LeftOpen(image, AfterInsn(image, config, p, rva, insn, resolved), a)
  {
    hide OperandTargets, OperandXrefs, Traced, DirectTarget, Untraceable, InsnAt, IsExec;
    var p' := AfterInsn(image, config, p, rva, insn, resolved);
    assert a == rva && IsIndirectBranch(insn) && resolved.None? && rva in p'.claimed;
    UntraceableGrows(image, p.queued, p'.queued, rva);
  }

  lemma UntraceableGrows(image: Image, queued: set<nat>, queued': set<nat>, a: nat)
    requires Untraceable(image, queued, a) && queued <= queued'
    ensures Untraceable(image, queued', a)
  {
    hide ResolveBranch, ObservedAll, StraightLine, InsnAt;
    var run :| OpenAlong(image, queued, run, a);
    assert OpenAlong(image, queued', run, a);
  }

  lemma LeftOpenGrows(image: Image, p: Progress, p': Progress, a: nat)
    requires LeftOpen(image, p, a) && p.queued <= p'.queued && p.claimed.Keys <= p'.claimed.Keys
    ensures LeftOpen(image, p', a)
  {
    hide Untraceable, InsnAt;
    UntraceableGrows(image, p.queued, p'.queued, a);
  }

  lemma FollowedGrows(image: Image, config: Config, p: Progress, p': Progress, a: nat)
    requires Followed(image, config, p, a)
    requires p.queued <= p'.queued && p.xrefs <= p'.xrefs && p.sites <= p'.sites
    ensures Followed(image, config, p', a)
  {
  }

  lemma JustifiedGrows(image: Image, p: Progress, p': Progress, x: Xref)
    requires Justified(image, p, x)
    requires p.queued <= p'.queued && p.claimed.Keys <= p'.claimed.Keys
    ensures Justified(image, p', x)
  {
  }

  lemma VisitComplete(image: Image, config: Config, seeds: set<nat>, p: Progress, rest: set<nat>,
                      rva: nat, insn: Insn, resolved: Option<int>)
    requires Complete(image, seeds, p, {rva} + rest) && CanVisit(image, p.queued, rva, insn, resolved)
    ensures Complete(image, seeds, AfterInsn(image, config, p, rva, insn, resolved),
                     (if FallsThrough(insn) then {rva + insn.size} else {}) + rest)
  {
    hide AfterInsn, Followed, InsnAt, FallsThrough, Visited, FallthroughsIn, Traced, IsExec;
    VisitGrows(image, config, p, rva, insn, resolved);
    var p' := AfterInsn(image, config, p, rva, insn, resolved);
    var next := if FallsThrough(insn) then {rva + insn.size} else {};
    VisitedGrows(p, p', rva, insn);
    forall a | a in p'.queued ensures a in Visited(p') + p'.waiting + (next + rest) {
      if a !in p.queued { assert a in p'.queued - p.queued; }
    }
    FallthroughsGrow(image, p.claimed.Keys, Visited(p) + ({rva} + rest), Visited(p') + (next + rest), rva, insn);
    assert p'.claimed.Keys == p.claimed.Keys + {rva};
  }

  lemma FallthroughsGrow(image: Image, claimed: set<nat>, into: set<nat>, into': set<nat>, rva: nat, insn: Insn)
    requires FallthroughsIn(image, claimed, into) && into <= into' && InsnAt(image, rva) == Some(insn)
    requires FallsThrough(insn) ==> rva + insn.size in into'
    ensures FallthroughsIn(image, claimed + {rva}, into')
  {
    hide InsnAt;
  }

  lemma VisitedGrows(p: Progress, p': Progress, rva: nat, insn: Insn)
    requires p'.claimed == p.claimed[rva := insn.size] && p'.undecodable == p.undecodable
    ensures Visited(p') == Visited(p) + {rva}
  {
  }

  /** Every edge of a decoded instruction is queued, but for its fallthrough. */
  lemma EdgesAreQueued(image: Image, config: Config, p: Progress, a: nat, b: nat)
    requires Edge(GraphOf(image, config, p), a, b) && Followed(image, config, p, a)
    requires forall x :: x in p.xrefs ==> Justified(image, p, x)
    ensures b in p.queued || (FallsThrough(InsnAt(image, a).value) && b == a + InsnAt(image, a).value.size)
  {
    hide OperandXrefs, OperandTargets, DirectTarget, Traced;
    var insn := InsnAt(image, a).value;
    if Xref(b, a, BRANCH) in p.xrefs && IsIndirectBranch(insn) {
      assert Justified(image, p, Xref(b, a, BRANCH));
      IndirectHasNoTarget(insn, image, insn.operands);
    }
  }

  /** With nothing waiting, soundness and completeness make a fixpoint. */
  lemma DoneIsFixpoint(image: Image, config: Config, seeds: set<nat>, p: Progress)
    requires Sound(image, config, seeds, p, {}) && Complete(image, seeds, p, {}) && p.waiting == {}
    ensures IsFixpoint(GraphOf(image, config, p), seeds, Visited(p))
  {
    hide Reach, Followed, Justified, IsExec, Edge, InsnAt, FallsThrough, FallthroughsIn;
    var g := GraphOf(image, config, p);
    forall a: nat, b: nat | a in Visited(p) && Edge(g, a, b) ensures b in Visited(p) {
      EdgesAreDecoded(g, a, b);
      EdgesAreQueued(image, config, p, a, b);
      if b !in p.queued { FallthroughIn(image, p.claimed.Keys, Visited(p) + {}, a); }
    }
  }

  lemma FallthroughIn(image: Image, claimed: set<nat>, into: set<nat>, a: nat)
    requires FallthroughsIn(image, claimed, into) && a in claimed
    requires InsnAt(image, a).Some? && FallsThrough(InsnAt(image, a).value)
    ensures a + InsnAt(image, a).value.size in into
  {
  }

  lemma EdgesAreDecoded(g: Graph, a: nat, b: nat)
    requires Edge(g, a, b)
    ensures InsnAt(g.image, a).Some?
  {
  }
}
