/** An analysed image: its sections, its address window, what it disassembles to, and the
    references an instruction makes. Addresses relative to the image base are RVAs. */
module Image {
  import opened Wrappers

  // ----- instructions -----

  datatype OperandKind = REG | IMM | MEM

  const REG_RIP: nat := 41

  /** Register ids are positive; 0 stands for no register, and for no segment override. */
  datatype Operand = Operand(kind: OperandKind, size: nat, reg: nat, imm: int,
                             segment: nat, base: nat, index: nat, scale: nat, disp: int, writes: bool)

  datatype Insn = Insn(address: int, size: nat, mnemonic: string, operands: seq<Operand>,
                       isCall: bool, isJmp: bool, isRet: bool, isCond: bool)

  predicate IsAbsoluteMem(op: Operand) { op.kind == MEM && op.segment == 0 && op.base == 0 && op.index == 0 }

  predicate IsTableMem(op: Operand) { op.kind == MEM && op.segment == 0 && op.base == 0 && op.index != 0 }

  predicate IsRipRelative(op: Operand) { op.kind == MEM && op.segment == 0 && op.base == REG_RIP && op.index == 0 }

  // ----- the image -----

  datatype Section = Section(va: nat, virtualSize: nat, rawSize: nat, exec: bool)

  function Max(a: int, b: int): int { if a < b then b else a }

  function Min(a: int, b: int): int { if a < b then a else b }

  function SectionEnd(s: Section): nat { s.va + Max(s.virtualSize, s.rawSize) }

  predicate InSection(s: Section, rva: int) { s.va <= rva < SectionEnd(s) }

  /** What the bytes at an address disassemble to. */
  datatype Decoding = Decoded(insn: Insn) | NoBytes | NothingProduced | Resynced

  /** `pointers` is the pointer-sized value stored at an RVA, where one can be read in full;
      `bytes` the byte there. */
  datatype Image = Image(base: nat, slot: nat, sections: seq<Section>,
                         code: int -> Decoding, pointers: int -> Option<nat>, bytes: int -> Option<nat>)

  function SpanOf(sections: seq<Section>): (r: nat)
    ensures forall s :: s in sections ==> SectionEnd(s) <= r
    ensures r == 0 || exists s :: s in sections && SectionEnd(s) == r
  {
    if sections == [] then 0 else Max(SectionEnd(sections[0]), SpanOf(sections[1..]))
  }

  function Span(image: Image): nat { SpanOf(image.sections) }

  predicate IsMapped(image: Image, rva: int) { exists s :: s in image.sections && InSection(s, rva) }

  predicate IsExec(image: Image, rva: int) { exists s :: s in image.sections && s.exec && InSection(s, rva) }

  function VaToRva(image: Image, va: int): Option<int> {
    if image.base <= va < image.base + Span(image) then Some(va - image.base) else None
  }

  function RvaToVa(image: Image, rva: int): int { image.base + rva }

  function ReadPointer(image: Image, rva: int): Option<nat> { image.pointers(rva) }

  /** The instruction at an RVA, decoded at its virtual address. */
  function InsnAt(image: Image, rva: int): Option<Insn> {
    if IsMapped(image, rva) && image.code(rva).Decoded? then Some(image.code(rva).insn) else None
  }

  const LONGEST_INSN: nat := 15

  /** The disassembler's side: an instruction is decoded at the address asked for and has
      between 1 and 15 bytes. */
  ghost predicate DisassemblerOk(image: Image) {
    forall rva :: image.code(rva).Decoded? ==>
      && image.code(rva).insn.address == RvaToVa(image, rva)
      && 1 <= image.code(rva).insn.size <= LONGEST_INSN
  }

  lemma MappedIsInSpan(image: Image, rva: int)
    requires IsMapped(image, rva)
    ensures 0 <= rva < Span(image)
  {
  }

  predicate Holds(s: Section, rva: int) {
    s.va <= rva && (rva < s.va + s.virtualSize || rva < s.va + s.rawSize)
  }

  /** An address is mapped exactly if a section holds it, in memory or in the file, and executable
      exactly if one that may execute does; and the virtual addresses that translate are those of
      the window from the base, as long as the furthest section. */
  lemma AddressesExactly(image: Image, rva: int, va: int)
    ensures IsMapped(image, rva) <==> exists s :: s in image.sections && Holds(s, rva)
    ensures IsExec(image, rva) <==> exists s :: s in image.sections && s.exec && Holds(s, rva)
    ensures VaToRva(image, va) == Some(rva) <==>
            va == image.base + rva && rva >= 0
            && exists s :: s in image.sections && (rva < s.va + s.virtualSize || rva < s.va + s.rawSize)
  {
    forall s ensures Holds(s, rva) <==> InSection(s, rva) { }
    if Span(image) > 0 {
      var s :| s in image.sections && SectionEnd(s) == Span(image);
    }
  }

  lemma ExecIsMapped(image: Image, rva: int)
    requires IsExec(image, rva)
    ensures IsMapped(image, rva)
  {
  }

  // ----- references -----

  datatype RefKind = BRANCH | IMMEDIATE | MEMORY | TABLE | DATA

  function AddressWithoutRegisters(insn: Insn, op: Operand): Option<int> {
    if op.kind != MEM || op.segment != 0 then None
    else if IsRipRelative(op) then Some(insn.address + insn.size + op.disp)
    else if IsAbsoluteMem(op) && op.disp != 0 then Some(op.disp)
    else None
  }

  function MemoryAddress(insn: Insn, op: Operand, image: Image): Option<int> {
    match AddressWithoutRegisters(insn, op)
    case None => None
    case Some(address) => VaToRva(image, address)
  }

  function ClassifyOperand(insn: Insn, op: Operand, image: Image): Option<(int, RefKind)> {
    match op.kind
    case IMM =>
      (match VaToRva(image, op.imm)
       case None => None
       case Some(rva) => Some((rva, if insn.isCall || insn.isJmp then BRANCH else IMMEDIATE)))
    case MEM =>
      if IsTableMem(op) then
        (match VaToRva(image, op.disp) case None => None case Some(rva) => Some((rva, TABLE)))
      else
        (match MemoryAddress(insn, op, image) case None => None case Some(rva) => Some((rva, MEMORY)))
    case REG => None
  }

  function ClassifyOperands(insn: Insn, ops: seq<Operand>, image: Image): seq<(int, RefKind)> {
    if ops == [] then []
    else (match ClassifyOperand(insn, ops[0], image) case None => [] case Some(ref) => [ref])
         + ClassifyOperands(insn, ops[1..], image)
  }

  /** The references of an instruction, in operand order. */
  method ClassifyRefs(insn: Insn, image: Image) returns (found: seq<(int, RefKind)>)
    ensures found == ClassifyOperands(insn, insn.operands, image)
  {
    hide ClassifyOperand, ClassifyOperands;
    found := [];
    ghost var all := ClassifyOperands(insn, insn.operands, image);
    assert insn.operands[0..] == insn.operands;
    for k := 0 to |insn.operands|
      invariant found + ClassifyOperands(insn, insn.operands[k..], image) == all
    {
      ClassifyNext(insn, k, image);
      match ClassifyOperand(insn, insn.operands[k], image) {
        case None =>
        case Some(ref) => found := found + [ref];
      }
    }
    ClassifyNone(insn, image);
  }

  lemma ClassifyNext(insn: Insn, k: nat, image: Image)
    requires k < |insn.operands|
    ensures ClassifyOperands(insn, insn.operands[k..], image)
            == (match ClassifyOperand(insn, insn.operands[k], image) case None => [] case Some(ref) => [ref])
               + ClassifyOperands(insn, insn.operands[k + 1..], image)
  {
    hide ClassifyOperand;
    assert insn.operands[k..][1..] == insn.operands[k + 1..];
  }

  lemma ClassifyNone(insn: Insn, image: Image)
    ensures ClassifyOperands(insn, insn.operands[|insn.operands|..], image) == []
  {
  }

  /** How an operand refers to an address of the image: an immediate is one, a branch target or
      not; a scaled index on a bare displacement names a table there; and an operand whose
      address is all in the encoding, relative to the instruction's end or absolute, names that. */
  predicate Refers(insn: Insn, op: Operand, image: Image, ref: (int, RefKind)) {
    var va := image.base + ref.0;
    && 0 <= ref.0 < Span(image)
    && match ref.1
       case BRANCH => op.kind == IMM && (insn.isCall || insn.isJmp) && op.imm == va
       case IMMEDIATE => op.kind == IMM && !insn.isCall && !insn.isJmp && op.imm == va
       case TABLE => op.kind == MEM && op.segment == 0 && op.base == 0 && op.index != 0 && op.disp == va
       case MEMORY =>
         && op.kind == MEM && op.segment == 0 && op.index == 0
         && ((op.base == REG_RIP && insn.address + insn.size + op.disp == va)
             || (op.base == 0 && op.disp != 0 && op.disp == va))
       case DATA => false
  }

  lemma ClassifiedAsRefers(insn: Insn, op: Operand, image: Image, ref: (int, RefKind))
    ensures ClassifyOperand(insn, op, image) == Some(ref) <==> Refers(insn, op, image, ref)
  {
    hide Span;
  }

  lemma AddressRefers(insn: Insn, op: Operand, image: Image, base: int)
    ensures MemoryAddress(insn, op, image) == Some(base) <==> Refers(insn, op, image, (base, MEMORY))
  {
    hide Span;
  }

  /** A reference is reported exactly when some operand makes it. */
  lemma {:induction false} ReferenceFromOperand(insn: Insn, ops: seq<Operand>, image: Image, ref: (int, RefKind))
    ensures ref in ClassifyOperands(insn, ops, image) <==> exists op :: op in ops && Refers(insn, op, image, ref)
  {
    hide ClassifyOperand, Refers;
    if ops != [] {
      ReferenceFromOperand(insn, ops[1..], image, ref);
      ClassifiedAsRefers(insn, ops[0], image, ref);
      assert ops == [ops[0]] + ops[1..];
    }
  }

  /** The first immediate decides. */
  function FirstImm(ops: seq<Operand>): Option<int> {
    if ops == [] then None else if ops[0].kind == IMM then Some(ops[0].imm) else FirstImm(ops[1..])
  }

  function BranchTarget(insn: Insn, image: Image): Option<int> {
    if !(insn.isCall || insn.isJmp) then None
    else match FirstImm(insn.operands) case None => None case Some(va) => VaToRva(image, va)
  }

  /** A branch goes to an address of the image exactly when its first immediate is that. */
  lemma {:induction false} TargetExactly(insn: Insn, image: Image, ops: seq<Operand>, t: int)
    ensures FirstImm(ops) == Some(t) <==>
            exists k :: 0 <= k < |ops| && ops[k].kind == IMM && ops[k].imm == t
                        && forall j :: 0 <= j < k ==> ops[j].kind != IMM
    ensures BranchTarget(insn, image) == Some(t) <==>
            && (insn.isCall || insn.isJmp) && 0 <= t < Span(image) && FirstImm(insn.operands) == Some(image.base + t)
    decreases |ops|
  {
    hide Span;
    if ops != [] {
      TargetExactly(insn, image, ops[1..], t);
      if ops[0].kind != IMM {
        if k :| 0 <= k < |ops| && ops[k].kind == IMM && ops[k].imm == t
                && forall j :: 0 <= j < k ==> ops[j].kind != IMM {
          assert ops[k] == ops[1..][k - 1];
          assert forall j :: 0 <= j < k - 1 ==> ops[1..][j] == ops[j + 1];
        }
        if k :| 0 <= k < |ops[1..]| && ops[1..][k].kind == IMM && ops[1..][k].imm == t
                && forall j :: 0 <= j < k ==> ops[1..][j].kind != IMM {
          assert ops[k + 1] == ops[1..][k];
          assert forall j :: 0 < j < k + 1 ==> ops[j] == ops[1..][j - 1];
        }
      }
    }
  }

  predicate IsIndirectBranch(insn: Insn) {
    (insn.isCall || insn.isJmp) && forall op :: op in insn.operands ==> op.kind != IMM
  }

  /** "Indirect" is "no immediate operand", so no direct target and no branch reference. */
  lemma {:induction false} IndirectHasNoTarget(insn: Insn, image: Image, ops: seq<Operand>)
    requires forall op :: op in ops ==> op.kind != IMM
    ensures FirstImm(ops) == None
    ensures forall ref :: ref in ClassifyOperands(insn, ops, image) ==> ref.1 != BRANCH && ref.1 != IMMEDIATE
  {
    if ops != [] { IndirectHasNoTarget(insn, image, ops[1..]); }
  }
}
