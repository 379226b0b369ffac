/** Executing an instrumented function: what the processor fetches from the patched memory, and
    when the copied instructions do in the trampoline what they did in place. */
module Detour {
  import opened Wrappers
  import opened Instrument

  // ----- the processor -----

  /** Registers and data memory. */
  datatype Cpu = Cpu(regs: nat -> int, mem: int -> int)

  const STACK_POINTER: nat := 4

  /** An instruction, by how its effect involves its own address. Displacements count from the
      end of the instruction (Intel SDM Vol. 2A, sections 2.2.1.6 and 3.2). */
  datatype Insn =
    | Plain(act: Cpu -> Cpu)                         // goes on behind itself
    | Leave(act: Cpu -> Cpu, dest: Cpu -> int)       // ret, or a jump through registers or memory they name
    | JumpThrough(disp: int)                         // jmp [rip + disp]
    | Operate(disp: int, does: (Cpu, int) -> Cpu)    // any other with a memory operand [rip + disp]
    | LoadAddress(dst: nat, disp: int)               // lea dst, [rip + disp]
    | Load(dst: nat, disp: int)                      // mov dst, [rip + disp]
    | Store(disp: int, src: nat)                     // mov [rip + disp], src
    | Jump(rel: int)
    | JumpIf(taken: Cpu -> bool, rel: int)
    | Call(dest: Cpu -> int)                         // through registers or memory they name
    | CallThrough(disp: int)                         // call [rip + disp]
    | CallRel(rel: int)

  datatype Coded = Coded(insn: Insn, size: nat)

  datatype Point = Point(pc: int, cpu: Cpu)

  function SetReg(c: Cpu, r: nat, v: int): Cpu { c.(regs := (x: nat) => if x == r then v else c.regs(x)) }

  function SetMem(c: Cpu, a: int, v: int): Cpu { c.(mem := x => if x == a then v else c.mem(x)) }

  function Push(c: Cpu, v: int): Cpu {
    var sp := c.regs(STACK_POINTER) - 8;
    SetMem(SetReg(c, STACK_POINTER, sp), sp, v)
  }

  /** One instruction at the point it stands. */
  function Exec(i: Coded, p: Point): Point {
    var end := p.pc + i.size;
    match i.insn
    case Plain(act) => Point(end, act(p.cpu))
    case Leave(act, dest) => Point(dest(p.cpu), act(p.cpu))
    case JumpThrough(disp) => Point(p.cpu.mem(end + disp), p.cpu)
    case Operate(disp, does) => Point(end, does(p.cpu, end + disp))
    case LoadAddress(dst, disp) => Point(end, SetReg(p.cpu, dst, end + disp))
    case Load(dst, disp) => Point(end, SetReg(p.cpu, dst, p.cpu.mem(end + disp)))
    case Store(disp, src) => Point(end, SetMem(p.cpu, end + disp, p.cpu.regs(src)))
    case Jump(rel) => Point(end + rel, p.cpu)
    case JumpIf(taken, rel) => Point(if taken(p.cpu) then end + rel else end, p.cpu)
    case Call(dest) => Point(dest(p.cpu), Push(p.cpu, end))
    case CallThrough(disp) => Point(p.cpu.mem(end + disp), Push(p.cpu, end))
    case CallRel(rel) => Point(end + rel, Push(p.cpu, end))
  }

  /** The instruction the processor makes of the code at an address. */
  type Decoder = (Memory, int) -> Option<Coded>

  predicate SameBytes(m: Memory, a: int, m': Memory, b: int, n: nat) {
    forall x :: a <= x < a + n ==> x in m && b + (x - a) in m' && m'[b + (x - a)] == m[x]
  }

  /** What an instruction is depends on its own bytes alone, wherever they stand, and E9 with a
      displacement is a jump by it. */
  ghost predicate DecoderOk(decode: Decoder) {
    && (forall m, a, m', b :: decode(m, a).Some? && SameBytes(m, a, m', b, decode(m, a).value.size) ==>
          decode(m', b) == decode(m, a))
    && forall m, a, code :: |code| == 5 && JumpTarget(code, a).Some? && Holds(m, a, code) ==>
         decode(m, a) == Some(Coded(Jump(JumpTarget(code, a).value - (a + 5)), 5))
  }

  /** Fetch and execute; None where nothing decodes. */
  function Step(decode: Decoder, m: Memory, p: Option<Point>): Option<Point> {
    if p.None? || decode(m, p.value.pc).None? then None
    else Some(Exec(decode(m, p.value.pc).value, p.value))
  }

  function Steps(decode: Decoder, m: Memory, p: Point, k: nat): Option<Point> {
    if k == 0 then Some(p) else Step(decode, m, Steps(decode, m, p, k - 1))
  }

  // ----- the replaced instructions -----

  /** Instructions start at these offsets of the replaced code, one behind the other, and the
      last one ends where it ends. */
  ghost predicate StartsOk(decode: Decoder, m: Memory, target: int, n: nat, starts: set<nat>) {
    && 0 in starts
    && forall o :: o in starts ==>
         decode(m, target + o).Some?
         && (o + decode(m, target + o).value.size in starts || o + decode(m, target + o).value.size == n)
         && o + decode(m, target + o).value.size <= n
  }

  /** An address where a replaced instruction starts, or the one behind the last. */
  predicate Among(starts: set<nat>, n: nat, target: int, pc: int) {
    (pc >= target && pc - target in starts) || pc == target + n
  }

  /** The same state, at the same address or at its copy. */
  ghost predicate Corresponds(starts: set<nat>, n: nat, target: int, region: int, p: Point, q: Point) {
    q.cpu == p.cpu && (q.pc == p.pc || (Among(starts, n, target, p.pc) && q.pc == p.pc + (region - target)))
  }

  ghost predicate CopyDoesSame(i: Coded, starts: set<nat>, n: nat, target: int, region: int, o: nat, c: Cpu) {
    Corresponds(starts, n, target, region, Exec(i, Point(target + o, c)), Exec(i, Point(region + o, c)))
  }

  /** Whatever the registers and the memory, the operation is the same with either address. */
  ghost predicate DoesSame(does: (Cpu, int) -> Cpu, a: int, b: int) { forall c: Cpu :: does(c, a) == does(c, b) }

  /** The instruction does not involve its own address: it pushes no return address, a branch
      with an immediate target stays among the replaced instructions, and it is not relative to
      the instruction pointer, or in a way that cannot tell the two addresses apart. */
  ghost predicate Relocatable(i: Coded, starts: set<nat>, n: nat, target: int, region: int, o: nat) {
    match i.insn
    case Plain(_) => true
    case Leave(_, _) => true
    case Operate(disp, does) => DoesSame(does, target + o + i.size + disp, region + o + i.size + disp)
    case Jump(rel) => Among(starts, n, target, target + o + i.size + rel)
    case JumpIf(taken, rel) => Among(starts, n, target, target + o + i.size + rel) || forall c: Cpu :: !taken(c)
    case _ => false
  }

  /** Whatever the registers and the memory hold, the copy of an instruction does what the
      instruction did exactly when it is relocatable. The bytes are copied as they are: a
      relative call, a jump elsewhere, or an operand relative to the instruction pointer
      refers to something else from the trampoline. */
  lemma RelocatableExactly(i: Coded, starts: set<nat>, n: nat, target: int, region: int, o: nat)
    requires region != target && (o + i.size in starts || o + i.size == n)
    ensures (forall c: Cpu :: CopyDoesSame(i, starts, n, target, region, o, c))
            <==> Relocatable(i, starts, n, target, region, o)
  {
    if !Relocatable(i, starts, n, target, region, o) {
      if i.insn.Operate? {
        var here, there := target + o + i.size + i.insn.disp, region + o + i.size + i.insn.disp;
        var c: Cpu :| i.insn.does(c, here) != i.insn.does(c, there);
        assert !CopyDoesSame(i, starts, n, target, region, o, c);
      } else {
        var c := if i.insn.JumpIf? then var c :| i.insn.taken(c); c else WITNESS;
        Differs(i, starts, n, target, region, o, c);
      }
    }
  }

  /** Memory in which every cell holds twice its own address. */
  const WITNESS: Cpu := Cpu(r => -1, a => 2 * a)

  lemma Differs(i: Coded, starts: set<nat>, n: nat, target: int, region: int, o: nat, c: Cpu)
    requires region != target && !Relocatable(i, starts, n, target, region, o) && !i.insn.Operate?
    requires if i.insn.JumpIf? then i.insn.taken(c) else c == WITNESS
    ensures !CopyDoesSame(i, starts, n, target, region, o, c)
  {
    var p, q := Exec(i, Point(target + o, c)), Exec(i, Point(region + o, c));
    var here, there := target + o + i.size, region + o + i.size;
    match i.insn
    case LoadAddress(dst, disp) => assert p.cpu.regs(dst) != q.cpu.regs(dst);
    case Load(dst, disp) => assert p.cpu.regs(dst) != q.cpu.regs(dst);
    case Store(disp, src) => assert p.cpu.mem(here + disp) == -1 != q.cpu.mem(here + disp) == 2 * (here + disp);
    case Call(_) => assert p.cpu.mem(-9) != q.cpu.mem(-9);
    case CallThrough(_) => assert p.cpu.mem(-9) != q.cpu.mem(-9);
    case CallRel(_) => assert p.cpu.mem(-9) != q.cpu.mem(-9);
    case _ =>
  }

  /** A jump by 0x100 from 0x1000 goes to 0x1105; its copy at 0x20000 goes to 0x20105. */
  lemma CopiedJumpGoesElsewhere(c: Cpu)
    ensures var i := Coded(Jump(0x100), 5);
            && Exec(i, Point(0x1000, c)).pc == 0x1105 && Exec(i, Point(0x2_0000, c)).pc == 0x2_0105
            && !Relocatable(i, {0}, 5, 0x1000, 0x2_0000, 0)
  {
  }

  // ----- running the hook -----

  /** The first k instructions of a run that starts at the replaced ones are replaced ones, and
      only the last of them may go where registers or memory say. */
  ghost predicate Passes(decode: Decoder, m: Memory, target: int, starts: set<nat>, c: Cpu, k: nat) {
    forall j: nat :: j < k ==>
      && Steps(decode, m, Point(target, c), j).Some?
      && Steps(decode, m, Point(target, c), j).value.pc >= target
      && Steps(decode, m, Point(target, c), j).value.pc - target in starts
      && (j + 1 < k ==> !decode(m, Steps(decode, m, Point(target, c), j).value.pc).Some?
                        || !decode(m, Steps(decode, m, Point(target, c), j).value.pc).value.insn.Leave?)
  }

  ghost predicate AllRelocatable(decode: Decoder, m: Memory, target: int, region: int, n: nat, starts: set<nat>)
    requires StartsOk(decode, m, target, n, starts)
  {
    forall o :: o in starts ==> Relocatable(decode(m, target + o).value, starts, n, target, region, o)
  }

  lemma PassesPrefix(decode: Decoder, m: Memory, target: int, starts: set<nat>, c: Cpu, k: nat)
    requires Passes(decode, m, target, starts, c, k) && k > 0
    ensures Passes(decode, m, target, starts, c, k - 1)
    ensures var p := Steps(decode, m, Point(target, c), k - 1);
            p.Some? && p.value.pc >= target && p.value.pc - target in starts
    ensures k > 1 ==> var p := Steps(decode, m, Point(target, c), k - 2);
                      p.Some? && (decode(m, p.value.pc).Some? ==> !decode(m, p.value.pc).value.insn.Leave?)
  {
    hide Steps;
  }

  /** The copy of an instruction is the instruction. */
  lemma CopyDecodes(decode: Decoder, m: Memory, m': Memory, target: int, original: seq<Byte>, region: int,
                    starts: set<nat>, o: nat)
    requires DecoderOk(decode) && Holds(m, target, original) && Holds(m', region, original)
    requires StartsOk(decode, m, target, |original|, starts) && o in starts
    ensures decode(m', region + o) == decode(m, target + o)
  {
    hide JumpTarget;
    var i := decode(m, target + o).value;
    forall x | target + o <= x < target + o + i.size
      ensures x in m && region + o + (x - (target + o)) in m' && m'[region + o + (x - (target + o))] == m[x]
    {
      assert m[x] == original[x - target];
      var y := region + (x - target);
      assert m'[y] == original[y - region];
    }
    assert SameBytes(m, target + o, m', region + o, i.size);
  }

  /** One replaced instruction, in place and in the copy. */
  lemma CopyStep(decode: Decoder, m: Memory, m': Memory, target: int, original: seq<Byte>, region: int,
                 starts: set<nat>, o: nat, c: Cpu)
    requires DecoderOk(decode) && Holds(m, target, original) && Holds(m', region, original)
    requires StartsOk(decode, m, target, |original|, starts) && o in starts
    requires Relocatable(decode(m, target + o).value, starts, |original|, target, region, o)
    ensures var p, q := Step(decode, m, Some(Point(target + o, c))), Step(decode, m', Some(Point(region + o, c)));
            && p.Some? && q.Some? && q.value.cpu == p.value.cpu
            && (if decode(m, target + o).value.insn.Leave? then q.value.pc == p.value.pc
                else Among(starts, |original|, target, p.value.pc) && q.value.pc == p.value.pc + (region - target))
  {
    hide DecoderOk, Holds, Exec, Relocatable, Among;
    CopyDecodes(decode, m, m', target, original, region, starts, o);
    CopyExec(decode(m, target + o).value, starts, |original|, target, region, o, c);
  }

  lemma CopyExec(i: Coded, starts: set<nat>, n: nat, target: int, region: int, o: nat, c: Cpu)
    requires Relocatable(i, starts, n, target, region, o) && (o + i.size in starts || o + i.size == n)
    ensures var p, q := Exec(i, Point(target + o, c)), Exec(i, Point(region + o, c));
            && q.cpu == p.cpu
            && (if i.insn.Leave? then q.pc == p.pc
                else Among(starts, n, target, p.pc) && q.pc == p.pc + (region - target))
  {
  }

  /** The copy follows the replaced instructions step by step, and leaves them where they do. */
  lemma {:induction false} CopyFollows(decode: Decoder, m: Memory, m': Memory, target: int, original: seq<Byte>,
                                       region: int, starts: set<nat>, c: Cpu, k: nat)
    requires DecoderOk(decode) && Holds(m, target, original) && Holds(m', region, original)
    requires StartsOk(decode, m, target, |original|, starts) && Passes(decode, m, target, starts, c, k)
    requires AllRelocatable(decode, m, target, region, |original|, starts)
    ensures var p, q := Steps(decode, m, Point(target, c), k), Steps(decode, m', Point(region, c), k);
            && p.Some? && q.Some? && q.value.cpu == p.value.cpu
            && (if k > 0 && decode(m, Steps(decode, m, Point(target, c), k - 1).value.pc).value.insn.Leave?
                then q.value.pc == p.value.pc
                else Among(starts, |original|, target, p.value.pc) && q.value.pc == p.value.pc + (region - target))
    decreases k
  {
    hide DecoderOk, StartsOk, Relocatable, Holds, Exec;
    if k > 0 {
      PassesPrefix(decode, m, target, starts, c, k);
      hide Passes;
      CopyFollows(decode, m, m', target, original, region, starts, c, k - 1);
      var p := Steps(decode, m, Point(target, c), k - 1).value;
      CopyStep(decode, m, m', target, original, region, starts, p.pc - target, p.cpu);
    } else {
      assert Steps(decode, m, Point(target, c), 0) == Some(Point(target, c));
      ZeroStarts(decode, m, target, |original|, starts);
    }
  }

  lemma ZeroStarts(decode: Decoder, m: Memory, target: int, n: nat, starts: set<nat>)
    requires StartsOk(decode, m, target, n, starts)
    ensures 0 in starts
  {
  }

  lemma JumpStep(decode: Decoder, m: Memory, from: int, to: int, c: Cpu)
    requires DecoderOk(decode) && BuildAbsJmp(from, to).Some? && Holds(m, from, BuildAbsJmp(from, to).value)
    ensures Step(decode, m, Some(Point(from, c))) == Some(Point(to, c))
  {
    JumpLands(from, to);
    var code := BuildAbsJmp(from, to).value;
    hide BuildAbsJmp;
    assert decode(m, from) == Some(Coded(Jump(to - (from + 5)), 5));
  }

  /** The end of the trampoline leads back behind the replaced instructions. */
  lemma ComesBack(decode: Decoder, m': Memory, target: int, n: nat, region: int, c: Cpu, q: Option<Point>)
    requires DecoderOk(decode) && q == Some(Point(region + n, c))
    requires BuildAbsJmp(region + n, target + n).Some?
    requires Holds(m', region + n, BuildAbsJmp(region + n, target + n).value)
    ensures Step(decode, m', q) == Some(Point(target + n, c))
  {
    hide DecoderOk, Holds, BuildAbsJmp, Step;
    JumpStep(decode, m', region + n, target + n, c);
  }

  /** Control that reaches an instrumented target goes to the payload, with nothing else changed. */
  lemma HookRedirects(decode: Decoder, m: Memory, m': Memory, target: int, original: seq<Byte>, region: int,
                      payload: seq<Byte>, c: Cpu)
    requires DecoderOk(decode) && Installed(m, m', target, original, region, payload)
    ensures Steps(decode, m', Point(target, c), 1) == Some(Point(region + |original| + 5, c))
  {
    hide DecoderOk, Holds, BuildAbsJmp, Step;
    JumpStep(decode, m', target, region + |original| + 5, c);
    assert Steps(decode, m', Point(target, c), 1) == Step(decode, m', Steps(decode, m', Point(target, c), 0));
  }

  /** Entered at the trampoline, an instrumented target does with the copies what it did with
      the replaced instructions, if those are relocatable: where they leave through a register
      or memory it leaves for the same place, and where they end it comes back behind them in
      one more step, each time with the same registers and memory. */
  lemma TrampolineRuns(decode: Decoder, m: Memory, m': Memory, target: int, original: seq<Byte>, region: int,
                       payload: seq<Byte>, starts: set<nat>, c: Cpu, k: nat)
    requires DecoderOk(decode) && Holds(m, target, original)
    requires Installed(m, m', target, original, region, payload)
    requires StartsOk(decode, m, target, |original|, starts)
    requires AllRelocatable(decode, m, target, region, |original|, starts)
    requires Passes(decode, m, target, starts, c, k) && k > 0
    ensures var p, q := Steps(decode, m, Point(target, c), k), Steps(decode, m', Point(region, c), k);
            && p.Some?
            && (if decode(m, Steps(decode, m, Point(target, c), k - 1).value.pc).value.insn.Leave? then q == p
                else p.value.pc == target + |original| ==> Steps(decode, m', Point(region, c), k + 1) == p)
  {
    hide DecoderOk, Holds, Relocatable, BuildAbsJmp, Passes, StartsOk;
    CopyFollows(decode, m, m', target, original, region, starts, c, k);
    var p, q := Steps(decode, m, Point(target, c), k).value, Steps(decode, m', Point(region, c), k);
    if p.pc == target + |original| && q == Some(Point(region + |original|, p.cpu)) {
      ComesBack(decode, m', target, |original|, region, p.cpu, q);
    }
  }
}
