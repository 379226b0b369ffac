/** Constant propagation over a straight-line run, and a machine to hold it against. */
module Consts {
  import opened Wrappers
  import opened Image

  const MOV_LIKE: set<string> := {"mov", "movabs"}
  const LEA_LIKE: set<string> := {"lea"}

  // ----- what the tracker computes -----

  type Known = map<nat, int>

  function OperandAddress(known: Known, insn: Insn, op: Operand): Option<int> {
    if AddressWithoutRegisters(insn, op).Some? then AddressWithoutRegisters(insn, op)
    else if op.index == 0 && op.base in known then Some(known[op.base] + op.disp)
    else if op.base == 0 && op.index in known then Some(known[op.index] * op.scale + op.disp)
    else None
  }

  function ReadPointerAt(image: Image, va: int): Option<nat> {
    match VaToRva(image, va)
    case None => None
    case Some(rva) => ReadPointer(image, rva)
  }

  /** The register an instruction sets to a constant, and the constant. */
  function ProducedConstant(image: Image, known: Known, insn: Insn): Option<(nat, int)> {
    if |insn.operands| != 2 || insn.operands[0].kind != REG then None
    else
      var source := insn.operands[1];
      if source.kind == IMM && insn.mnemonic in MOV_LIKE then Some((insn.operands[0].reg, source.imm))
      else if source.kind != MEM then None
      else
        match OperandAddress(known, insn, source)
        case None => None
        case Some(address) =>
          if insn.mnemonic in LEA_LIKE then Some((insn.operands[0].reg, address))
          else if insn.mnemonic !in MOV_LIKE then None
          else match ReadPointerAt(image, address)
               case None => None
               case Some(value) => Some((insn.operands[0].reg, value))
  }

  function Observed(image: Image, known: Known, insn: Insn): Known {
    match ProducedConstant(image, known, insn)
    case None => map[]
    case Some((register, value)) => known[register := value]
  }

  /** Where one operand of an indirect branch leads. */
  function ResolveOperand(image: Image, known: Known, insn: Insn, op: Operand): Option<int> {
    if op.kind != MEM then None
    else match OperandAddress(known, insn, op)
      case None => None
      case Some(slot) =>
        match ReadPointerAt(image, slot)
        case None => None
        case Some(value) =>
          match VaToRva(image, value)
          case None => None
          case Some(rva) => if IsExec(image, rva) then Some(rva) else None
  }

  function ResolveAmong(image: Image, known: Known, insn: Insn, ops: seq<Operand>): (r: Option<int>)
    ensures r.Some? ==> exists op :: op in ops && ResolveOperand(image, known, insn, op) == r
  {
    if ops == [] then None
    else if ResolveOperand(image, known, insn, ops[0]).Some? then ResolveOperand(image, known, insn, ops[0])
    else ResolveAmong(image, known, insn, ops[1..])
  }

  function ResolveBranch(image: Image, known: Known, insn: Insn): Option<int> {
    ResolveAmong(image, known, insn, insn.operands)
  }

  /** Which registers hold known values, over one straight-line run. */
  class ConstantTracker {
    const image: Image
    var regs: Known

    constructor (image: Image)
      ensures this.image == image && regs == map[]
    {
      this.image := image;
      regs := map[];
    }

    method Reset()
      modifies this
      ensures regs == map[]
    {
      regs := map[];
    }

    /** Fold an instruction into the state; forget everything if it is not recognised. */
    method Observe(insn: Insn)
      modifies this
      ensures regs == Observed(image, old(regs), insn)
    {
      match ProducedConstant(image, regs, insn) {
        case None => Reset();
        case Some((register, value)) => regs := regs[register := value];
      }
    }

    method Resolve(insn: Insn) returns (target: Option<int>)
      ensures target == ResolveBranch(image, regs, insn)
    {
      assert insn.operands[0..] == insn.operands;
      for k := 0 to |insn.operands|
        invariant ResolveBranch(image, regs, insn) == ResolveAmong(image, regs, insn, insn.operands[k..])
      {
        assert insn.operands[k..][1..] == insn.operands[k + 1..];
        target := ResolveOperand(image, regs, insn, insn.operands[k]);
        if target.Some? { return; }
      }
      target := None;
    }
  }

  // ----- the machine -----

  /** Registers, pointer-sized memory reads, and segment bases. */
  datatype Machine = Machine(regs: nat -> int, mem: int -> int, segmentBase: nat -> int)

  /** Which registers share bits. */
  type Overlap = (nat, nat) -> bool

  function Power256(n: nat): (r: nat)
    ensures r >= 1 && (n > 0 ==> r >= 256)
  {
    if n == 0 then 1 else 256 * Power256(n - 1)
  }

  /** One more than the largest address. */
  function Modulus(image: Image): nat { Power256(image.slot) }

  function RegisterPart(s: Machine, insn: Insn, reg: nat): int {
    if reg == 0 then 0 else if reg == REG_RIP then insn.address + insn.size else s.regs(reg)
  }

  /** The address an operand spells out, before any segment base. */
  function Offset(image: Image, s: Machine, insn: Insn, op: Operand): int {
    RegisterPart(s, insn, op.base) + RegisterPart(s, insn, op.index) * op.scale + op.disp
  }

  function SegmentPart(s: Machine, op: Operand): int {
    if op.segment == 0 then 0 else s.segmentBase(op.segment)
  }

  function EffectiveAddress(image: Image, s: Machine, insn: Insn, op: Operand): int {
    (Offset(image, s, insn, op) + SegmentPart(s, op)) % Modulus(image)
  }

  /** A move or load-address of a constant form into a register. */
  predicate Moves(insn: Insn) {
    && |insn.operands| == 2 && insn.operands[0].kind == REG
    && ((insn.mnemonic in MOV_LIKE && insn.operands[1].kind != REG)
        || (insn.mnemonic in LEA_LIKE && insn.operands[1].kind == MEM))
  }

  function MovedValue(image: Image, s: Machine, insn: Insn): int
    requires Moves(insn)
  {
    var source := insn.operands[1];
    if source.kind == IMM then source.imm
    else if insn.mnemonic in LEA_LIKE then Offset(image, s, insn, source)
    else s.mem(EffectiveAddress(image, s, insn, source))
  }

  /** A move writes its destination, at the destination's width, and may change the
      registers that overlap it. Any other instruction may do anything. */
  ghost predicate Executes(overlap: Overlap, image: Image, insn: Insn, s: Machine, s': Machine) {
    Moves(insn) ==>
      var d := insn.operands[0];
      && s'.regs(d.reg) == MovedValue(image, s, insn) % Power256(d.size)
      && (forall r: nat :: r != d.reg && !overlap(r, d.reg) ==> s'.regs(r) == s.regs(r))
      && s'.mem == s.mem && s'.segmentBase == s.segmentBase
  }

  /** The window lies within the address space, and stored pointers are address-sized. */
  ghost predicate ImageOk(image: Image) {
    && image.slot >= 1 && image.base + Span(image) <= Modulus(image)
    && forall rva :: image.pointers(rva).Some? ==> image.pointers(rva).value < Modulus(image)
  }

  /** Memory holds what the image says it holds. */
  ghost predicate Agrees(image: Image, s: Machine) {
    forall rva :: 0 <= rva < Span(image) && image.pointers(rva).Some? ==>
      s.mem(image.base + rva) == image.pointers(rva).value
  }

  ghost predicate RegistersRight(image: Image, known: Known, s: Machine) {
    && 0 !in known && REG_RIP !in known
    && forall r :: r in known ==> known[r] % Modulus(image) == s.regs(r) % Modulus(image)
  }

  // ----- modular arithmetic -----

  lemma ModUnique(x: int, q: int, r: int, n: int)
    requires 0 <= r < n && x == n * q + r
    ensures x % n == r
  {
    var d := x / n - q;
    assert x == n * (x / n) + x % n;
    assert n * d == r - x % n by { assert n * d == n * (x / n) - n * q; }
    assert d >= 1 ==> n * d >= n;
    assert d <= -1 ==> n * d <= -n;
    assert d == 0;
    assert n * d == 0;
  }

  lemma SameModAdd(a: int, b: int, c: int, n: int)
    requires n > 0 && a % n == b % n
    ensures (a + c) % n == (b + c) % n
  {
    var k := a / n - b / n;
    assert a == b + n * k by {
      assert a == n * (a / n) + a % n;
      assert b == n * (b / n) + b % n;
      assert n * k == n * (a / n) - n * (b / n);
    }
    var y := b + c;
    assert y == n * (y / n) + y % n;
    assert a + c == n * (y / n + k) + y % n by { assert n * (y / n + k) == n * (y / n) + n * k; }
    ModUnique(a + c, y / n + k, y % n, n);
  }

  lemma SameModMul(a: int, b: int, c: int, n: int)
    requires n > 0 && a % n == b % n
    ensures (a * c) % n == (b * c) % n
  {
    var k := a / n - b / n;
    assert a == b + n * k by {
      assert a == n * (a / n) + a % n;
      assert b == n * (b / n) + b % n;
      assert n * k == n * (a / n) - n * (b / n);
    }
    var y := b * c;
    assert y == n * (y / n) + y % n;
    assert a * c == n * (y / n + k * c) + y % n by {
      assert a * c == b * c + (n * k) * c;
      assert (n * k) * c == n * (k * c);
      assert n * (y / n + k * c) == n * (y / n) + n * (k * c);
    }
    ModUnique(a * c, y / n + k * c, y % n, n);
  }

  lemma SmallMod(x: int, n: int)
    requires 0 <= x < n
    ensures x % n == x
  {
  }

  // ----- addresses -----

  /** An address computed from known registers is the offset the processor computes. */
  lemma OperandOffset(image: Image, known: Known, s: Machine, insn: Insn, op: Operand)
    requires op.kind == MEM && RegistersRight(image, known, s) && OperandAddress(known, insn, op).Some?
    ensures OperandAddress(known, insn, op).value % Modulus(image) == Offset(image, s, insn, op) % Modulus(image)
  {
    var n := Modulus(image);
    if AddressWithoutRegisters(insn, op).Some? {
    } else if op.index == 0 && op.base in known {
      SameModAdd(known[op.base], s.regs(op.base), op.disp, n);
    } else {
      SameModMul(known[op.index], s.regs(op.index), op.scale, n);
      SameModAdd(known[op.index] * op.scale, s.regs(op.index) * op.scale, op.disp, n);
    }
  }

  /** It is the effective address exactly when the operand's segment starts at zero. The
      tracker tests the segment for addresses without registers, but not for the others. */
  lemma OperandAddressExactly(image: Image, known: Known, s: Machine, insn: Insn, op: Operand)
    requires op.kind == MEM && RegistersRight(image, known, s) && OperandAddress(known, insn, op).Some?
    ensures OperandAddress(known, insn, op).value % Modulus(image) == EffectiveAddress(image, s, insn, op)
            <==> SegmentPart(s, op) % Modulus(image) == 0
  {
    var n := Modulus(image);
    var a, o, g := OperandAddress(known, insn, op).value, Offset(image, s, insn, op), SegmentPart(s, op);
    OperandOffset(image, known, s, insn, op);
    SmallMod(0, n);
    if g % n == 0 {
      SameModAdd(g, 0, o, n);
    }
    if (o + g) % n == o % n {
      SameModAdd(o + g, o, -o, n);
    }
  }

  /** A slot inside the window is its own residue, so reading it is reading that memory. */
  lemma SlotHoldsPointer(image: Image, known: Known, s: Machine, insn: Insn, op: Operand)
    requires ImageOk(image) && Agrees(image, s) && RegistersRight(image, known, s)
    requires op.kind == MEM && OperandAddress(known, insn, op).Some? && SegmentPart(s, op) % Modulus(image) == 0
    requires ReadPointerAt(image, OperandAddress(known, insn, op).value).Some?
    ensures s.mem(EffectiveAddress(image, s, insn, op))
            == ReadPointerAt(image, OperandAddress(known, insn, op).value).value
  {
    var a := OperandAddress(known, insn, op).value;
    OperandAddressExactly(image, known, s, insn, op);
    SmallMod(a, Modulus(image));
  }

  // ----- observing -----

  /** What an instruction must be like for the tracker's account of it to be right: the
      destination is a full-width register that shares no bits with another tracked one,
      and a load goes through a segment that starts at zero. */
  predicate Tame(overlap: Overlap, image: Image, known: Known, insn: Insn) {
    ProducedConstant(image, known, insn).Some? ==>
      var d := insn.operands[0];
      && d.reg != 0 && d.reg != REG_RIP && d.size == image.slot
      && (forall r :: r in known && r != d.reg ==> !overlap(r, d.reg))
      && (insn.mnemonic in MOV_LIKE && insn.operands[1].kind == MEM ==> insn.operands[1].segment == 0)
  }

  lemma ProducedIsMoved(image: Image, known: Known, s: Machine, insn: Insn)
    requires ImageOk(image) && Agrees(image, s) && RegistersRight(image, known, s)
    requires ProducedConstant(image, known, insn).Some?
    requires insn.mnemonic in MOV_LIKE && insn.operands[1].kind == MEM ==>
             SegmentPart(s, insn.operands[1]) % Modulus(image) == 0
    ensures Moves(insn) && ProducedConstant(image, known, insn).value.0 == insn.operands[0].reg
    ensures MovedValue(image, s, insn) % Modulus(image)
            == ProducedConstant(image, known, insn).value.1 % Modulus(image)
  {
    var source := insn.operands[1];
    if source.kind == MEM {
      if insn.mnemonic in LEA_LIKE { OperandOffset(image, known, s, insn, source); }
      else { SlotHoldsPointer(image, known, s, insn, source); }
    }
  }

  lemma ModMod(x: int, n: int)
    requires n > 0
    ensures x % n % n == x % n
  {
  }

  lemma ObserveKeeps(overlap: Overlap, image: Image, known: Known, insn: Insn, s: Machine, s': Machine)
    requires ImageOk(image) && Agrees(image, s) && RegistersRight(image, known, s)
    requires Tame(overlap, image, known, insn) && Executes(overlap, image, insn, s, s')
    ensures RegistersRight(image, Observed(image, known, insn), s')
  {
    if ProducedConstant(image, known, insn).Some? {
      SmallMod(0, Modulus(image));
      ProducedIsMoved(image, known, s, insn);
      ModMod(MovedValue(image, s, insn), Modulus(image));
    }
  }

  /** The registers are right after an instruction, however it treats the registers it
      overlaps, exactly when no other tracked register overlaps the destination and the
      destination's width keeps the value. */
  lemma ObserveExactly(overlap: Overlap, image: Image, known: Known, insn: Insn, s: Machine)
    requires ImageOk(image) && Agrees(image, s) && RegistersRight(image, known, s)
    requires ProducedConstant(image, known, insn).Some?
    requires insn.operands[0].reg != 0 && insn.operands[0].reg != REG_RIP
    requires insn.mnemonic in MOV_LIKE && insn.operands[1].kind == MEM ==>
             SegmentPart(s, insn.operands[1]) % Modulus(image) == 0
    ensures (forall s' :: Executes(overlap, image, insn, s, s') ==>
              RegistersRight(image, Observed(image, known, insn), s'))
            <==>
            var d := insn.operands[0];
            && (forall r :: r in known && r != d.reg ==> !overlap(r, d.reg))
            && MovedValue(image, s, insn) % Power256(d.size) % Modulus(image)
               == MovedValue(image, s, insn) % Modulus(image)
  {
    var d, n := insn.operands[0], Modulus(image);
    var v := MovedValue(image, s, insn);
    ProducedIsMoved(image, known, s, insn);
    // an outcome that disturbs every overlapping register
    var worst := Machine((r: nat) => if r == d.reg then v % Power256(d.size)
                                     else if overlap(r, d.reg) then s.regs(r) + 1 else s.regs(r),
                         s.mem, s.segmentBase);
    assert Executes(overlap, image, insn, s, worst);
    if RegistersRight(image, Observed(image, known, insn), worst) {
      assert d.reg in Observed(image, known, insn);
      forall r | r in known && r != d.reg ensures !overlap(r, d.reg) {
        if overlap(r, d.reg) {
          assert r in Observed(image, known, insn);
          assert (s.regs(r) + 1) % n == s.regs(r) % n;
          SameModAdd(s.regs(r) + 1, s.regs(r), -s.regs(r), n);
          SmallMod(0, n);
          SmallMod(1, n);
          assert false;
        }
      }
    }
  }

  // ----- what is folded -----

  /** Memory as the image has it, the known registers at their values, every segment at zero. */
  function Exemplar(image: Image, known: Known): Machine {
    Machine((r: nat) => if r in known then known[r] else 0,
            a => if HasPointer(image, a) then image.pointers(a - image.base).value else 0,
            _ => 0)
  }

  /** A pointer that can be read is stored at an address. */
  predicate HasPointer(image: Image, a: int) {
    image.base <= a < image.base + Span(image) && image.pointers(a - image.base).Some?
  }

  predicate KnownOk(known: Known) { 0 !in known && REG_RIP !in known }

  /** A memory operand of which nothing is unknown: the encoding has the address, or it has a
      known base and no index, or a known index and no base. */
  predicate AddressKnown(known: Known, op: Operand) {
    && op.kind == MEM
    && (|| (op.segment == 0 && op.index == 0 && (op.base == REG_RIP || (op.base == 0 && op.disp != 0)))
        || (op.index == 0 && op.base in known)
        || (op.base == 0 && op.index in known))
  }

  /** The instructions the tracker can follow: into a register, a move of an immediate, a move
      of a pointer at a known address, or a known address itself. */
  predicate Folds(image: Image, known: Known, insn: Insn) {
    && |insn.operands| == 2 && insn.operands[0].kind == REG
    && var source := insn.operands[1];
       match source.kind
       case REG => false
       case IMM => insn.mnemonic == "mov" || insn.mnemonic == "movabs"
       case MEM =>
         && AddressKnown(known, source)
         && (insn.mnemonic == "lea"
             || ((insn.mnemonic == "mov" || insn.mnemonic == "movabs")
                 && HasPointer(image, Offset(image, Exemplar(image, known), insn, source))))
  }

  lemma AddressIsOffset(image: Image, known: Known, insn: Insn, op: Operand)
    requires KnownOk(known) && op.kind == MEM
    ensures OperandAddress(known, insn, op)
            == if AddressKnown(known, op) then Some(Offset(image, Exemplar(image, known), insn, op)) else None
  {
  }

  lemma PointerIsRead(image: Image, known: Known, insn: Insn, op: Operand)
    requires ImageOk(image)
    ensures var s, a := Exemplar(image, known), Offset(image, Exemplar(image, known), insn, op);
            && (HasPointer(image, a) ==>
                  && ReadPointerAt(image, a) == Some(image.pointers(a - image.base).value)
                  && s.mem(EffectiveAddress(image, s, insn, op)) == image.pointers(a - image.base).value)
            && (!HasPointer(image, a) ==> ReadPointerAt(image, a) == None)
  {
    var a := Offset(image, Exemplar(image, known), insn, op);
    if HasPointer(image, a) { SmallMod(a, Modulus(image)); }
  }

  lemma FoldedIsProduced(image: Image, known: Known, insn: Insn)
    requires ImageOk(image) && KnownOk(known)
    ensures Folds(image, known, insn) <==> ProducedConstant(image, known, insn).Some?
    ensures Folds(image, known, insn) ==>
              && Moves(insn)
              && ProducedConstant(image, known, insn)
                 == Some((insn.operands[0].reg, MovedValue(image, Exemplar(image, known), insn)))
  {
    hide OperandAddress, ReadPointerAt, Offset, EffectiveAddress, AddressKnown, HasPointer, ImageOk, KnownOk, Modulus;
    if |insn.operands| == 2 && insn.operands[1].kind == MEM {
      AddressIsOffset(image, known, insn, insn.operands[1]);
      PointerIsRead(image, known, insn, insn.operands[1]);
    }
  }

  /** The tracker follows exactly these: the destination then holds what the instruction moves;
      after any other, nothing is known. */
  lemma FoldsExactly(image: Image, known: Known, insn: Insn)
    requires ImageOk(image) && KnownOk(known)
    ensures Folds(image, known, insn) ==>
              && Moves(insn)
              && Observed(image, known, insn)
                 == known[insn.operands[0].reg := MovedValue(image, Exemplar(image, known), insn)]
    ensures !Folds(image, known, insn) ==> Observed(image, known, insn) == map[]
  {
    hide Folds, MovedValue, ProducedConstant, ImageOk, KnownOk;
    FoldedIsProduced(image, known, insn);
  }

  /** In every machine the destination then is what is known of it. */
  lemma FoldedIsMoved(image: Image, known: Known, s: Machine, insn: Insn)
    requires ImageOk(image) && Agrees(image, s) && RegistersRight(image, known, s) && Folds(image, known, insn)
    requires insn.operands[1].kind == MEM && insn.mnemonic != "lea" ==>
             SegmentPart(s, insn.operands[1]) % Modulus(image) == 0
    ensures Moves(insn) && insn.operands[0].reg in Observed(image, known, insn)
    ensures Observed(image, known, insn)[insn.operands[0].reg] % Modulus(image)
            == MovedValue(image, s, insn) % Modulus(image)
  {
    hide Folds, RegistersRight, Agrees, ImageOk, MovedValue, Offset;
    RegistersAreOk(image, known, s);
    FoldsExactly(image, known, insn);
    FoldedIsProduced(image, known, insn);
    ProducedIsMoved(image, known, s, insn);
  }

  lemma RegistersAreOk(image: Image, known: Known, s: Machine)
    requires RegistersRight(image, known, s)
    ensures KnownOk(known)
  {
  }

  /** An operand's slot holds the address of executable code. */
  predicate Leads(image: Image, known: Known, insn: Insn, op: Operand, target: int) {
    op.kind == MEM && AddressKnown(known, op)
    && PointsTo(image, Offset(image, Exemplar(image, known), insn, op), target)
  }

  predicate PointsTo(image: Image, slot: int, target: int) {
    && HasPointer(image, slot)
    && image.pointers(slot - image.base).value == image.base + target
    && 0 <= target < Span(image) && IsExec(image, target)
  }

  lemma LeadsExactly(image: Image, known: Known, insn: Insn, op: Operand, target: int)
    requires KnownOk(known)
    ensures ResolveOperand(image, known, insn, op) == Some(target) <==> Leads(image, known, insn, op, target)
  {
    hide Offset, AddressKnown, IsExec, Span, OperandAddress, KnownOk;
    if op.kind == MEM { AddressIsOffset(image, known, insn, op); }
  }

  /** A branch is resolved by the first operand that leads anywhere, and only by one. */
  lemma {:induction false} ResolvesExactly(image: Image, known: Known, insn: Insn, ops: seq<Operand>, target: int)
    requires KnownOk(known)
    ensures ResolveAmong(image, known, insn, ops) == Some(target) <==>
            exists k :: 0 <= k < |ops| && Leads(image, known, insn, ops[k], target)
                        && forall j, t :: 0 <= j < k ==> !Leads(image, known, insn, ops[j], t)
    decreases |ops|
  {
    hide ResolveOperand, Leads, KnownOk;
    if ops != [] {
      forall t ensures ResolveOperand(image, known, insn, ops[0]) == Some(t) <==> Leads(image, known, insn, ops[0], t) {
        LeadsExactly(image, known, insn, ops[0], t);
      }
      ResolvesExactly(image, known, insn, ops[1..], target);
      var first := ResolveOperand(image, known, insn, ops[0]);
      if first.Some? {
        assert Leads(image, known, insn, ops[0], first.value);
      } else if ResolveAmong(image, known, insn, ops) == Some(target) {
        var k :| 0 <= k < |ops[1..]| && Leads(image, known, insn, ops[1..][k], target)
                 && forall j, t :: 0 <= j < k ==> !Leads(image, known, insn, ops[1..][j], t);
        forall j, t | 0 <= j < k + 1 ensures !Leads(image, known, insn, ops[j], t) {
          if j > 0 { assert ops[j] == ops[1..][j - 1]; }
        }
        assert ops[k + 1] == ops[1..][k];
      } else {
        forall k | 0 <= k < |ops| && Leads(image, known, insn, ops[k], target)
          ensures exists j, t :: 0 <= j < k && Leads(image, known, insn, ops[j], t) {
          assert k > 0 && ops[k] == ops[1..][k - 1];
          var j, t :| 0 <= j < k - 1 && Leads(image, known, insn, ops[1..][j], t);
          assert ops[j + 1] == ops[1..][j];
        }
      }
    }
  }

  // ----- whole runs -----

  function ObservedAll(image: Image, insns: seq<Insn>): Known
    decreases |insns|
  {
    if insns == [] then map[] else Observed(image, ObservedAll(image, insns[..|insns| - 1]), insns[|insns| - 1])
  }

  /** States before and after each instruction of a straight-line run. */
  ghost predicate StraightLineRun(overlap: Overlap, image: Image, insns: seq<Insn>, states: seq<Machine>) {
    && |states| == |insns| + 1
    && (forall i :: 0 <= i < |states| ==> Agrees(image, states[i]))
    && (forall i :: 0 <= i < |insns| ==> Executes(overlap, image, insns[i], states[i], states[i + 1]))
    && (forall i :: 0 <= i < |insns| ==> Tame(overlap, image, ObservedAll(image, insns[..i]), insns[i]))
  }

  lemma {:induction false} TrackedIsReal(overlap: Overlap, image: Image, insns: seq<Insn>, states: seq<Machine>)
    requires ImageOk(image) && StraightLineRun(overlap, image, insns, states)
    ensures RegistersRight(image, ObservedAll(image, insns), states[|insns|])
    decreases |insns|
  {
    hide StraightLineRun, Executes, Tame, Agrees, Observed, ImageOk, RegistersRight;
    RunLength(overlap, image, insns, states);
    if insns == [] {
      NothingTracked(image, states[0]);
    } else {
      var n := |insns| - 1;
      RunInit(overlap, image, insns, states);
      TrackedIsReal(overlap, image, insns[..n], states[..n + 1]);
      ObserveKeeps(overlap, image, ObservedAll(image, insns[..n]), insns[n], states[n], states[n + 1]);
    }
  }

  lemma RunLength(overlap: Overlap, image: Image, insns: seq<Insn>, states: seq<Machine>)
    requires StraightLineRun(overlap, image, insns, states)
    ensures |states| == |insns| + 1
  {
  }

  lemma NothingTracked(image: Image, m: Machine)
    ensures RegistersRight(image, map[], m)
  {
  }

  /** A run is a shorter one and one more instruction. */
  lemma RunInit(overlap: Overlap, image: Image, insns: seq<Insn>, states: seq<Machine>)
    requires StraightLineRun(overlap, image, insns, states) && insns != []
    ensures var n := |insns| - 1;
            && StraightLineRun(overlap, image, insns[..n], states[..n + 1])
            && Executes(overlap, image, insns[n], states[n], states[n + 1])
            && Tame(overlap, image, ObservedAll(image, insns[..n]), insns[n])
            && Agrees(image, states[n]) && Agrees(image, states[n + 1])
  {
    hide Executes, Tame, Agrees, Observed;
    var n := |insns| - 1;
    forall i | 0 <= i < n ensures Tame(overlap, image, ObservedAll(image, insns[..n][..i]), insns[..n][i]) {
      assert insns[..n][..i] == insns[..i];
    }
  }

  /** A resolved target is where the branch goes: whatever the registers were at the start of
      the run, at its end the branch's slot holds the address of the target, and that is
      executable. So no edge is fabricated. */
  lemma ResolvedBranchIsReal(overlap: Overlap, image: Image, insns: seq<Insn>, states: seq<Machine>,
                             branch: Insn, op: Operand, target: int)
    requires ImageOk(image) && StraightLineRun(overlap, image, insns, states)
    requires op in branch.operands && forall o :: o in branch.operands && o.kind == MEM ==> o == op
    requires SegmentPart(states[|insns|], op) % Modulus(image) == 0
    requires ResolveBranch(image, ObservedAll(image, insns), branch) == Some(target)
    ensures states[|insns|].mem(EffectiveAddress(image, states[|insns|], branch, op)) == RvaToVa(image, target)
    ensures IsExec(image, target)
  {
    TrackedIsReal(overlap, image, insns, states);
    SlotHoldsPointer(image, ObservedAll(image, insns), states[|insns|], branch, op);
  }

  // ----- nothing is forgotten too early -----

  /** What instruction i of a run produces, from what the instructions before it left known. */
  function ProducedAt(image: Image, insns: seq<Insn>, i: nat): Option<(nat, int)>
    requires i < |insns|
  {
    ProducedConstant(image, ObservedAll(image, insns[..i]), insns[i])
  }

  /** Instruction i sets a register, everything from there on is recognised, and nothing sets
      the register again. */
  ghost predicate LastSet(image: Image, insns: seq<Insn>, register: nat, i: nat) {
    && i < |insns|
    && (forall j :: i <= j < |insns| ==> ProducedAt(image, insns, j).Some?)
    && ProducedAt(image, insns, i).value.0 == register
    && forall j :: i < j < |insns| ==> ProducedAt(image, insns, j).value.0 != register
  }

  lemma ProducedAtPrefix(image: Image, insns: seq<Insn>, i: nat)
    requires i < |insns| - 1
    ensures ProducedAt(image, insns[..|insns| - 1], i) == ProducedAt(image, insns, i)
  {
    assert insns[..|insns| - 1][..i] == insns[..i];
  }

  lemma LastSetStep(image: Image, insns: seq<Insn>, register: nat, i: nat)
    requires i < |insns| - 1
    ensures LastSet(image, insns, register, i)
            <==> LastSet(image, insns[..|insns| - 1], register, i) && ProducedAt(image, insns, |insns| - 1).Some?
                 && ProducedAt(image, insns, |insns| - 1).value.0 != register
  {
    var n := |insns| - 1;
    forall j: nat | j < n ensures ProducedAt(image, insns[..n], j) == ProducedAt(image, insns, j) {
      ProducedAtPrefix(image, insns, j);
    }
    hide ProducedAt;
    if LastSet(image, insns, register, i) {
      assert ProducedAt(image, insns, n).Some?;
      forall j | i <= j < n ensures ProducedAt(image, insns[..n], j).Some? {
        assert ProducedAt(image, insns, j).Some?;
      }
    }
  }

  lemma LastSetNow(image: Image, insns: seq<Insn>, register: nat)
    requires insns != []
    ensures LastSet(image, insns, register, |insns| - 1)
            <==> ProducedAt(image, insns, |insns| - 1).Some?
                 && ProducedAt(image, insns, |insns| - 1).value.0 == register
  {
    hide ProducedAt;
  }

  /** A register is known after a run exactly when some instruction was the last to set it and
      nothing unrecognised followed; its value is what that instruction produced. */
  lemma {:induction false} KnownExactly(image: Image, insns: seq<Insn>, register: nat)
    ensures register in ObservedAll(image, insns) <==> exists i: nat :: LastSet(image, insns, register, i)
    ensures forall i: nat :: LastSet(image, insns, register, i) ==>
              ObservedAll(image, insns)[register] == ProducedAt(image, insns, i).value.1
    decreases |insns|
  {
    if insns != [] {
      var n := |insns| - 1;
      KnownExactly(image, insns[..n], register);
      LastSetNow(image, insns, register);
      forall i: nat | i < n
        ensures LastSet(image, insns, register, i)
                <==> LastSet(image, insns[..n], register, i) && ProducedAt(image, insns, n).Some?
                     && ProducedAt(image, insns, n).value.0 != register
        ensures ProducedAt(image, insns[..n], i) == ProducedAt(image, insns, i)
      {
        LastSetStep(image, insns, register, i);
        ProducedAtPrefix(image, insns, i);
      }
      forall i: nat | LastSet(image, insns, register, i) ensures i < n || i == n { }
      hide ProducedConstant;
      if register in ObservedAll(image, insns) && ProducedAt(image, insns, n).value.0 != register {
        var i: nat :| LastSet(image, insns[..n], register, i);
        assert LastSet(image, insns, register, i);
      }
    }
  }

  /** No instruction of a run has register 0, which stands for none, or the instruction pointer as
      its destination. */
  predicate RealDestinations(insns: seq<Insn>) {
    forall i :: 0 <= i < |insns| && insns[i].operands != [] && insns[i].operands[0].kind == REG ==>
      insns[i].operands[0].reg != 0 && insns[i].operands[0].reg != REG_RIP
  }

  lemma {:induction false} KnownStaysOk(image: Image, insns: seq<Insn>)
    requires RealDestinations(insns)
    ensures KnownOk(ObservedAll(image, insns))
    decreases |insns|
  {
    if insns != [] { KnownStaysOk(image, insns[..|insns| - 1]); }
  }

  ghost predicate FoldsAt(image: Image, insns: seq<Insn>, i: nat)
    requires i < |insns|
  {
    Folds(image, ObservedAll(image, insns[..i]), insns[i])
  }

  /** What instruction i moves, if the registers known before it hold what is known of them. */
  function MovedAt(image: Image, insns: seq<Insn>, i: nat): int
    requires i < |insns| && Moves(insns[i])
  {
    MovedValue(image, Exemplar(image, ObservedAll(image, insns[..i])), insns[i])
  }

  /** Instruction i can be followed and sets a register; so can all behind it, and none of them
      sets the register again. */
  ghost predicate LastFolded(image: Image, insns: seq<Insn>, register: nat, i: nat) {
    && i < |insns| && (forall j :: i <= j < |insns| ==> FoldsAt(image, insns, j))
    && Sets(insns[i], register) && forall j :: i < j < |insns| ==> !Sets(insns[j], register)
  }

  predicate Sets(insn: Insn, register: nat) {
    insn.operands != [] && insn.operands[0].kind == REG && insn.operands[0].reg == register
  }

  lemma FoldsAtIsProduced(image: Image, insns: seq<Insn>, i: nat)
    requires ImageOk(image) && RealDestinations(insns) && i < |insns|
    ensures FoldsAt(image, insns, i) <==> ProducedAt(image, insns, i).Some?
    ensures FoldsAt(image, insns, i) ==>
              && Moves(insns[i]) && ProducedAt(image, insns, i).value.1 == MovedAt(image, insns, i)
              && Sets(insns[i], ProducedAt(image, insns, i).value.0)
  {
    hide Folds, ProducedConstant, MovedValue, ObservedAll, ImageOk, KnownOk;
    KnownStaysOk(image, insns[..i]);
    FoldedIsProduced(image, ObservedAll(image, insns[..i]), insns[i]);
  }

  lemma LastFoldedIsLastSet(image: Image, insns: seq<Insn>, register: nat, i: nat)
    requires ImageOk(image) && RealDestinations(insns)
    ensures LastFolded(image, insns, register, i) <==> LastSet(image, insns, register, i)
    ensures LastFolded(image, insns, register, i) ==>
              && i < |insns| && Moves(insns[i]) && ProducedAt(image, insns, i).Some?
              && ProducedAt(image, insns, i).value.1 == MovedAt(image, insns, i)
  {
    hide FoldsAt, ProducedAt, ImageOk, RealDestinations, Moves, MovedAt;
    forall j: nat | j < |insns|
      ensures FoldsAt(image, insns, j) <==> ProducedAt(image, insns, j).Some?
      ensures FoldsAt(image, insns, j) ==>
                && Moves(insns[j]) && ProducedAt(image, insns, j).value.1 == MovedAt(image, insns, j)
                && Sets(insns[j], ProducedAt(image, insns, j).value.0)
    {
      FoldsAtIsProduced(image, insns, j);
    }
    if LastFolded(image, insns, register, i) { assert FoldsAt(image, insns, i); }
    if LastSet(image, insns, register, i) {
      forall j | i < j < |insns| ensures !Sets(insns[j], register) {
        assert ProducedAt(image, insns, j).value.0 != register;
      }
    }
  }

  /** So what is known after a run, and of which registers, is what the instructions say. */
  lemma KnownIsFolded(image: Image, insns: seq<Insn>, register: nat)
    requires ImageOk(image) && RealDestinations(insns)
    ensures register in ObservedAll(image, insns) <==> exists i: nat :: LastFolded(image, insns, register, i)
    ensures forall i: nat :: LastFolded(image, insns, register, i) ==>
              i < |insns| && Moves(insns[i]) && ObservedAll(image, insns)[register] == MovedAt(image, insns, i)
  {
    hide LastFolded, LastSet, ProducedAt, ImageOk, RealDestinations, ObservedAll, Moves, MovedAt;
    KnownExactly(image, insns, register);
    forall i: nat
      ensures LastFolded(image, insns, register, i) <==> LastSet(image, insns, register, i)
      ensures LastFolded(image, insns, register, i) ==>
                && i < |insns| && Moves(insns[i]) && ProducedAt(image, insns, i).Some?
                && ProducedAt(image, insns, i).value.1 == MovedAt(image, insns, i)
    {
      LastFoldedIsLastSet(image, insns, register, i);
    }
  }

  /** An indirect branch through one register: as the base without an index, or as the index
      without a base. */
  predicate Through(op: Operand, register: nat) {
    && op.kind == MEM && register != 0
    && ((op.index == 0 && op.base == register) || (op.base == 0 && op.index == register))
  }

  /** A branch through a register last set by an instruction that can be followed resolves
      exactly when the slot it then names holds the address of executable code, and to that. */
  lemma ChainResolves(image: Image, insns: seq<Insn>, i: nat, register: nat, branch: Insn, op: Operand, target: int)
    requires ImageOk(image) && RealDestinations(insns)
    requires LastFolded(image, insns, register, i) && branch.operands == [op] && Through(op, register)
    ensures i < |insns| && Moves(insns[i])
    ensures ResolveBranch(image, ObservedAll(image, insns), branch) == Some(target)
            <==> PointsTo(image, MovedAt(image, insns, i) * (if op.index == 0 then 1 else op.scale) + op.disp, target)
  {
    hide ObservedAll, LastFolded, PointsTo, MovedAt, Moves, RealDestinations, ImageOk;
    var known := ObservedAll(image, insns);
    KnownIsFolded(image, insns, register);
    KnownStaysOk(image, insns);
    LeadsExactly(image, known, branch, op, target);
    assert branch.operands[1..] == [];
    assert ResolveBranch(image, known, branch) == ResolveOperand(image, known, branch, op);
    assert Offset(image, Exemplar(image, known), branch, op)
           == known[register] * (if op.index == 0 then 1 else op.scale) + op.disp;
  }

  // ----- the conditions are needed -----

  /** `mov eax, 0x1010; mov ah, 5; call [eax]`, with eax as register 1 and ah, which overlaps it,
      as register 2: the tracker keeps 0x1010 for eax and resolves the call to RVA 0x20; eax
      is 0x0510 by then, and the call goes elsewhere. */
  lemma PartialWriteFabricatesEdge()
    ensures var image := Image(0x1000, 4, [Section(0, 0x100, 0, true)], _ => NoBytes,
                               rva => if rva == 0x10 then Some(0x1020) else None, _ => None);
            var ah, imm := Operand(REG, 1, 2, 0, 0, 0, 0, 1, 0, true), Operand(IMM, 1, 0, 5, 0, 0, 0, 1, 0, false);
            var mov := Insn(0x1000, 2, "mov", [ah, imm], false, false, false, false);
            var op := Operand(MEM, 4, 0, 0, 0, 1, 0, 1, 0, false);
            var call := Insn(0x1002, 2, "call", [op], true, false, false, false);
            var overlap: Overlap := (a, b) => a + b == 3;
            var s := Machine(_ => 0x1010, a => if a == 0x1010 then 0x1020 else 0, _ => 0);
            var s' := s.(regs := (r: nat) => if r == 2 then 5 else if r == 1 then 0x510 else 0x1010);
            var known := Observed(image, map[1 := 0x1010], mov);
            && ImageOk(image) && Agrees(image, s) && Agrees(image, s') && RegistersRight(image, map[1 := 0x1010], s)
            && Executes(overlap, image, mov, s, s') && !RegistersRight(image, known, s')
            && ResolveBranch(image, known, call) == Some(0x20)
            && s'.mem(EffectiveAddress(image, s', call, op)) != RvaToVa(image, 0x20)
  {
    var image := Image(0x1000, 4, [Section(0, 0x100, 0, true)], _ => NoBytes,
                       rva => if rva == 0x10 then Some(0x1020) else None, _ => None);
    var ah, imm := Operand(REG, 1, 2, 0, 0, 0, 0, 1, 0, true), Operand(IMM, 1, 0, 5, 0, 0, 0, 1, 0, false);
    var mov := Insn(0x1000, 2, "mov", [ah, imm], false, false, false, false);
    var op := Operand(MEM, 4, 0, 0, 0, 1, 0, 1, 0, false);
    var call := Insn(0x1002, 2, "call", [op], true, false, false, false);
    var overlap: Overlap := (a, b) => a + b == 3;
    var s := Machine(_ => 0x1010, a => if a == 0x1010 then 0x1020 else 0, _ => 0);
    var s' := s.(regs := (r: nat) => if r == 2 then 5 else if r == 1 then 0x510 else 0x1010);
    var known := Observed(image, map[1 := 0x1010], mov);
    assert Power256(1) == 256 * Power256(0) == 256;
    assert Power256(2) == 256 * Power256(1) == 65536 && Power256(3) == 256 * Power256(2) == 0x100_0000;
    assert Power256(4) == 256 * Power256(3) == 0x1_0000_0000;
    assert known == map[1 := 0x1010, 2 := 5];
    assert 1 in known && known[1] % Modulus(image) == 0x1010 && s'.regs(1) % Modulus(image) == 0x510;
    assert ResolveBranch(image, known, call) == Some(0x20);
  }

  /** After `mov reg, 0x1010`, the tracker resolves `jmp fs:[reg]` to RVA 0x20, the pointer
      stored at 0x1010; the processor reads 0x1050, past the base of fs, and goes elsewhere. */
  lemma SegmentFabricatesEdge(reg: nat, fs: nat)
    requires reg != 0 && reg != REG_RIP && fs != 0
    ensures var image := Image(0x1000, 4, [Section(0, 0x100, 0, true)], _ => NoBytes,
                               rva => if rva == 0x10 then Some(0x1020) else None, _ => None);
            var op := Operand(MEM, 4, 0, 0, fs, reg, 0, 1, 0, false);
            var jump := Insn(0x1000, 3, "jmp", [op], false, true, false, false);
            var s := Machine(_ => 0x1010, a => if a == 0x1010 then 0x1020 else 0, _ => 0x40);
            && ImageOk(image) && Agrees(image, s) && RegistersRight(image, map[reg := 0x1010], s)
            && ResolveBranch(image, map[reg := 0x1010], jump) == Some(0x20)
            && s.mem(EffectiveAddress(image, s, jump, op)) != RvaToVa(image, 0x20)
  {
  }

}
