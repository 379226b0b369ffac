/** The part of LLVM IR the converter emits, what the module verifier demands of it,
    and how it executes (LLVM Language Reference: alloca, load, store, add, sub, mul,
    sdiv, srem, and, or, icmp, zext, call, br, ret). */
module LlvmIr {
  import opened Wrappers
  import opened CSource

  datatype Ty = I1 | I32 | Void | Ptr

  /** Constants carry the value they denote: 0 or 1 at type i1, a signed number at i32.
      `Slot(k)` is the address produced by the k-th alloca of the entry block. */
  datatype Val = Const(cty: Ty, n: int) | Reg(id: nat, rty: Ty) | Slot(k: nat) | FuncRef(name: string)

  datatype Opcode = IAdd | ISub | IMul | ISDiv | ISRem | IAnd | IOr
  datatype Pred = ISlt | ISgt | ISle | ISge | IEq | INe

  datatype Instr =
    | Load(dst: nat, p: Val)
    | Store(v: Val, p: Val)
    | Arith(dst: nat, op: Opcode, a: Val, b: Val)
    | ICmp(dst: nat, pred: Pred, a: Val, b: Val)
    | ZExt(dst: nat, a: Val)                       // i1 to i32
    | CallF(dst: nat, f: string, sig: Sig, args: seq<Val>)   // a call carries the callee's type
    | Br(target: nat)
    | CondBr(c: Val, yes: nat, no: nat)
    | Ret(v: Val)
    | RetVoid
  {
    predicate IsTerminator() { Br? || CondBr? || Ret? || RetVoid? }
  }

  type Block = seq<Instr>

  datatype Sig = Sig(arity: nat, ret: Ty)

  type Sigs = map<string, Sig>

  function TypeOf(v: Val): Ty {
    match v
    case Const(t, _) => t
    case Reg(_, t) => t
    case Slot(_) => Ptr
    case FuncRef(_) => Ptr
  }

  // ----- the module verifier -----

  predicate IsInt(t: Ty) { t == I1 || t == I32 }

  /** The typing rules of one instruction. A store does not compare the stored type with
      the allocated one: pointers are opaque. */
  predicate InstrOk(i: Instr, ret: Ty, nblocks: nat) {
    match i
    case Load(_, p) => TypeOf(p) == Ptr
    case Store(v, p) => TypeOf(p) == Ptr && TypeOf(v) != Void
    case Arith(_, _, a, b) => IsInt(TypeOf(a)) && TypeOf(a) == TypeOf(b)
    case ICmp(_, _, a, b) => TypeOf(a) != Void && TypeOf(a) == TypeOf(b)
    case ZExt(_, a) => TypeOf(a) == I1
    case CallF(_, _, sig, args) =>
      |args| == sig.arity && forall k :: 0 <= k < |args| ==> TypeOf(args[k]) == I32
    case Br(t) => t < nblocks
    case CondBr(c, y, n) => TypeOf(c) == I1 && y < nblocks && n < nblocks
    case Ret(v) => ret != Void && TypeOf(v) == ret
    case RetVoid => ret == Void
  }

  predicate EndsInTerminator(b: Block) { b != [] && b[|b| - 1].IsTerminator() }

  predicate BlockOk(b: Block, ret: Ty, nblocks: nat) {
    && EndsInTerminator(b)
    && (forall i :: 0 <= i < |b| - 1 ==> !b[i].IsTerminator())
    && (forall i :: 0 <= i < |b| ==> InstrOk(b[i], ret, nblocks))
  }

  predicate FunctionOk(blocks: seq<Block>, ret: Ty) {
    forall k :: 0 <= k < |blocks| ==> BlockOk(blocks[k], ret, |blocks|)
  }

  // ----- execution -----

  type Regs = map<nat, int>
  type Memory = map<nat, int>

  /** Registers, slots, and the calls made so far. */
  datatype Machine = Machine(regs: Regs, mem: Memory, trace: seq<Event>)

  /** A point of execution. `Broken` stands for undefined behaviour. */
  datatype Config =
    | Run(block: nat, pc: nat, m: Machine)
    | Halt(value: Option<int>, trace: seq<Event>)
    | Broken

  function ValueOf(v: Val, regs: Regs): Option<int> {
    match v
    case Const(_, n) => Some(n)
    case Reg(id, _) => if id in regs then Some(regs[id]) else None
    case _ => None
  }

  /** The signed reading of a value: at i1 the bit 1 is minus one. */
  function Signed(t: Ty, n: int): int { if t == I1 then -n else n }

  /** Truncate a result to the width of its type, in that type's own representation. */
  function ToWidth(t: Ty, n: int): int { if t == I1 then n % 2 else Wrap32(n) }

  function Divides(t: Ty, a: int, b: int): bool {
    Signed(t, b) != 0
    && !(Signed(t, a) == (if t == I1 then -1 else -TWO31) && Signed(t, b) == -1)
  }

  function ArithValue(op: Opcode, t: Ty, a: int, b: int): Option<int> {
    match op
    case IAdd => Some(ToWidth(t, a + b))
    case ISub => Some(ToWidth(t, a - b))
    case IMul => Some(ToWidth(t, a * b))
    case ISDiv => if Divides(t, a, b) then Some(ToWidth(t, TruncDiv(Signed(t, a), Signed(t, b)))) else None
    case ISRem => if Divides(t, a, b) then Some(ToWidth(t, TruncRem(Signed(t, a), Signed(t, b)))) else None
    // The converter only combines truth values with these two.
    case IAnd => if t == I1 then Some(a * b) else None
    case IOr => if t == I1 then Some(if a + b == 0 then 0 else 1) else None
  }

  function PredValue(p: Pred, t: Ty, a: int, b: int): int {
    match p
    case ISlt => Truth(Signed(t, a) < Signed(t, b))
    case ISgt => Truth(Signed(t, a) > Signed(t, b))
    case ISle => Truth(Signed(t, a) <= Signed(t, b))
    case ISge => Truth(Signed(t, a) >= Signed(t, b))
    case IEq => Truth(a == b)
    case INe => Truth(a != b)
  }

  /** Storing an i1 writes the lowest byte of a four-byte slot and leaves the others. */
  function StoreInto(mem: Memory, k: nat, t: Ty, n: int): Memory {
    if t == I32 then mem[k := n]
    else if k in mem then mem[k := Wrap32((mem[k] % TWO32) / 256 * 256 + n)]
    else mem
  }

  function ArgValues(args: seq<Val>, regs: Regs): Option<seq<int>> {
    if args == [] then Some([])
    else
      var rest := ArgValues(args[..|args| - 1], regs);
      var last := ValueOf(args[|args| - 1], regs);
      if rest.Some? && last.Some? then Some(rest.value + [last.value]) else None
  }

  /** What the pure instructions compute from the registers. */
  function DefValue(i: Instr, regs: Regs): Option<int> {
    match i
    case Arith(_, op, a, b) =>
      var m, n := ValueOf(a, regs), ValueOf(b, regs);
      if m.None? || n.None? then None else ArithValue(op, TypeOf(a), m.value, n.value)
    case ICmp(_, p, a, b) =>
      var m, n := ValueOf(a, regs), ValueOf(b, regs);
      if m.None? || n.None? then None else Some(PredValue(p, TypeOf(a), m.value, n.value))
    case ZExt(_, a) => ValueOf(a, regs)
    case _ => None
  }

  predicate IsPure(i: Instr) { i.Arith? || i.ICmp? || i.ZExt? }

  /** One instruction that does not end its block; None where its behaviour is undefined. */
  function ExecPlain(i: Instr, m: Machine, w: World): Option<Machine>
    requires !i.IsTerminator()
  {
    if IsPure(i) then
      var n := DefValue(i, m.regs);
      if n.None? then None else Some(m.(regs := m.regs[i.dst := n.value]))
    else
      match i
      case Load(dst, p) =>
        if p.Slot? && p.k in m.mem then Some(m.(regs := m.regs[dst := m.mem[p.k]])) else None
      case Store(v, p) =>
        var n := ValueOf(v, m.regs);
        if p.Slot? && n.Some? then Some(m.(mem := StoreInto(m.mem, p.k, TypeOf(v), n.value))) else None
      case CallF(dst, f, _, args) =>
        var ns := ArgValues(args, m.regs);
        if ns.None? then None
        else
          match w(m.trace, f, ns.value)
          case Answered(n, after) => Some(Machine(m.regs[dst := Wrap32(n)], m.mem, after))
          case _ => None
  }

  /** A call that is not answered: execution stays with it. */
  predicate Waits(i: Instr, m: Machine, w: World) {
    i.CallF? && ArgValues(i.args, m.regs).Some? && w(m.trace, i.f, ArgValues(i.args, m.regs).value).Unanswered?
  }

  function ExecTerminator(i: Instr, m: Machine): Config
    requires i.IsTerminator()
  {
    match i
    case Br(t) => Run(t, 0, m)
    case CondBr(v, y, n) =>
      var b := ValueOf(v, m.regs);
      if b.None? then Broken else Run(if b.value != 0 then y else n, 0, m)
    case Ret(v) =>
      var n := ValueOf(v, m.regs);
      if n.None? then Broken else Halt(n, m.trace)
    case RetVoid => Halt(None, m.trace)
  }

  function Step(blocks: seq<Block>, c: Config, w: World): Config {
    if !c.Run? then c
    else if c.block >= |blocks| || c.pc >= |blocks[c.block]| then Broken
    else
      var i := blocks[c.block][c.pc];
      if i.IsTerminator() then ExecTerminator(i, c.m)
      else if Waits(i, c.m, w) then c
      else
        match ExecPlain(i, c.m, w)
        case None => Broken
        case Some(m) => Run(c.block, c.pc + 1, m)
  }

  function Steps(blocks: seq<Block>, c: Config, w: World, k: nat): Config
    decreases k
  {
    if k == 0 then c else Steps(blocks, Step(blocks, c, w), w, k - 1)
  }

  lemma {:induction false} StepsCompose(blocks: seq<Block>, c: Config, w: World, j: nat, k: nat)
    ensures Steps(blocks, c, w, j + k) == Steps(blocks, Steps(blocks, c, w, j), w, k)
    decreases j
  {
    if j > 0 { StepsCompose(blocks, Step(blocks, c, w), w, j - 1, k); }
  }

  /** Where a step goes nowhere, none of the later ones does. */
  lemma {:induction false} StepsStay(blocks: seq<Block>, c: Config, w: World, k: nat)
    requires Step(blocks, c, w) == c
    ensures Steps(blocks, c, w, k) == c
    decreases k
  {
    if k > 0 { StepsStay(blocks, c, w, k - 1); }
  }

  /** A finished execution stays finished. */
  lemma {:induction false} StepsDone(blocks: seq<Block>, c: Config, w: World, k: nat)
    requires !c.Run?
    ensures Steps(blocks, c, w, k) == c
    decreases k
  {
    if k > 0 { StepsDone(blocks, c, w, k - 1); }
  }

  // ----- straight-line code -----

  /** A run of instructions none of which ends the block, executed from first to last. */
  function RunCode(code: Block, m: Machine, w: World): Option<Machine> {
    if code == [] then Some(m)
    else
      match RunCode(code[..|code| - 1], m, w)
      case None => None
      case Some(m1) =>
        var i := code[|code| - 1];
        if i.IsTerminator() then None else ExecPlain(i, m1, w)
  }

  lemma {:induction false} RunCodeAppend(a: Block, b: Block, m: Machine, w: World)
    ensures RunCode(a + b, m, w) ==
            match RunCode(a, m, w) { case None => None case Some(m1) => RunCode(b, m1, w) }
    decreases |b|
  {
    if b == [] {
      assert a + b == a;
    } else {
      var init := b[..|b| - 1];
      assert (a + b)[..|a + b| - 1] == a + init;
      RunCodeAppend(a, init, m, w);
    }
  }

  /** Straight-line code that comes to a call that is not answered. */
  ghost predicate CodeWaits(code: Block, m: Machine, w: World) {
    exists k: nat :: k < |code| && RunCode(code[..k], m, w).Some? && Waits(code[k], RunCode(code[..k], m, w).value, w)
  }

  /** Straight-line code does in place what it does on its own. */
  lemma {:induction false} RunCodeInPlace(blocks: seq<Block>, k: nat, before: Block, code: Block,
                                          m: Machine, m1: Machine, w: World)
    requires k < |blocks| && before + code <= blocks[k]
    requires RunCode(code, m, w) == Some(m1)
    ensures Steps(blocks, Run(k, |before|, m), w, |code|) == Run(k, |before + code|, m1)
    decreases |code|
  {
    if code != [] {
      var init, i := code[..|code| - 1], code[|code| - 1];
      assert before + code == before + init + [i];
      var mid := RunCode(init, m, w).value;
      RunCodeInPlace(blocks, k, before, init, m, mid, w);
      StepsCompose(blocks, Run(k, |before|, m), w, |init|, 1);
      var c := Run(k, |before + init|, mid);
      assert blocks[k][|before + init|] == (before + code)[|before + init|] == i;
      assert Steps(blocks, c, w, 1) == Steps(blocks, Step(blocks, c, w), w, 0);
    }
  }
}
