/** What each emission routine of the converter adds to the function being built. */
module Emission {
  import opened Wrappers
  import opened CSource
  import opened LlvmIr

  const NO_OPERANDS := "Binary operator: expected 2 operands"
  const BAD_BINARY := "Unsupported binary operator"
  const NO_OPERAND := "Unary operator: no operand"
  const BAD_UNARY := "Unsupported unary operator"
  const BAD_CALLEE := "CallExpr: callee is not a function"
  const BAD_ARITY := "CallExpr: argument count mismatch for "
  const BAD_NAME := "Unknown identifier: "
  const BAD_EXPR := "Unsupported expression node in C subset"

  // ----- expressions -----

  /** What an expression can refer to: functions of the module, slots of the locals. */
  datatype Scope = Scope(sigs: Sigs, locals: map<string, nat>)

  /** The instructions of an expression, the next unused register after them, and the
      value they leave; or the message of the error that stopped the emission. */
  datatype Code = Code(instrs: Block, regs: nat, val: Val) | Failed(message: string)

  /** `a`, then `b`. */
  function Join(a: Code, b: Code): Code
    requires a.Code? && b.Code?
  {
    Code(a.instrs + b.instrs, b.regs, b.val)
  }

  /** An lvalue is left as its slot until a consumer loads it. */
  function EmitLoad(q: nat, v: Val): (r: Code)
    ensures r.Code? && q <= r.regs
  {
    if v.Slot? then Code([Load(q, v)], q + 1, Reg(q, I32)) else Code([], q, v)
  }

  function EmitCoerce(q: nat, v: Val): (r: Code)
    ensures r.Code? && q <= r.regs
  {
    if TypeOf(v) == I1 then Code([ZExt(q, v)], q + 1, Reg(q, I32)) else Code([], q, v)
  }

  /** Widening to the type of an operand; nothing to do when that is i1 already. */
  function EmitToType(q: nat, v: Val, t: Ty): (r: Code)
    ensures r.Code? && q <= r.regs
  {
    if t == I1 then Code([], q, v) else Code([ZExt(q, v)], q + 1, Reg(q, t))
  }

  function OpcodeOf(op: BinOp): Option<Opcode> {
    match op
    case Add => Some(IAdd)
    case Sub => Some(ISub)
    case Mul => Some(IMul)
    case Div => Some(ISDiv)
    case Rem => Some(ISRem)
    case _ => None
  }

  function PredOf(op: BinOp): Option<Pred> {
    match op
    case LT => Some(ISlt)
    case GT => Some(ISgt)
    case LE => Some(ISle)
    case GE => Some(ISge)
    case EQ => Some(IEq)
    case NE => Some(INe)
    case _ => None
  }

  /** `&&` and `||` on loaded operands: both are tested, then combined. */
  function EmitLogical(q: nat, op: BinOp, l: Val, r: Val): (res: Code)
    ensures res.Code? && q <= res.regs
  {
    var zero := Const(TypeOf(l), 0);
    var code := if op == LAnd then IAnd else IOr;
    Join(Code([ICmp(q, INe, l, zero), ICmp(q + 1, INe, r, zero), Arith(q + 2, code, Reg(q, I1), Reg(q + 1, I1))],
              q + 3, Reg(q + 2, I1)),
         EmitToType(q + 3, Reg(q + 2, I1), TypeOf(l)))
  }

  /** An operator other than assignment on loaded operands. */
  function EmitOperator(q: nat, op: BinOp, l: Val, r: Val): (res: Code)
    ensures res.Code? ==> q <= res.regs
  {
    if OpcodeOf(op).Some? then Code([Arith(q, OpcodeOf(op).value, l, r)], q + 1, Reg(q, TypeOf(l)))
    else if PredOf(op).Some? then Code([ICmp(q, PredOf(op).value, l, r)], q + 1, Reg(q, I1))
    else if op == LAnd || op == LOr then EmitLogical(q, op, l, r)
    else Failed(BAD_BINARY)
  }

  function EmitBinary(q: nat, op: BinOp, lhs: Val, rhs: Val): (res: Code)
    ensures res.Code? ==> q <= res.regs
  {
    if op == Assign then
      var v := EmitLoad(q, rhs);
      Code(v.instrs + [Store(v.val, lhs)], v.regs, v.val)
    else
      var l := EmitLoad(q, lhs);
      var r := EmitLoad(l.regs, rhs);
      var c := EmitOperator(r.regs, op, l.val, r.val);
      if c.Failed? then c else Join(Join(l, r), c)
  }

  function EmitUnary(q: nat, op: UnOp, v: Val): (res: Code)
    ensures res.Code? ==> q <= res.regs
  {
    var zero := Const(TypeOf(v), 0);
    match op
    case Minus => Code([Arith(q, ISub, zero, v)], q + 1, Reg(q, TypeOf(v)))
    case LNot => Join(Code([ICmp(q, IEq, v, zero)], q + 1, Reg(q, I1)), EmitToType(q + 1, Reg(q, I1), TypeOf(v)))
    case OtherUn => Failed(BAD_UNARY)
  }

  function EmitExpr(s: Scope, q: nat, e: Expr): (res: Code)
    ensures res.Code? ==> q <= res.regs
    decreases e, 1
  {
    match e
    case Lit(n) => Code([], q, Const(I32, n))
    case Var(x) =>
      if x in s.locals then Code([], q, Slot(s.locals[x]))
      else if x in s.sigs then Code([], q, FuncRef(x))
      else Failed(BAD_NAME + x)
    case Paren(i) => EmitExpr(s, q, i)
    case Cast(i) => EmitExpr(s, q, i)
    case Un(op, i) =>
      var v := EmitExpr(s, q, i);
      if v.Failed? then Failed(NO_OPERAND)
      else
        var l := EmitLoad(v.regs, v.val);
        var u := EmitUnary(l.regs, op, l.val);
        if u.Failed? then u else Join(Join(v, l), u)
    case Bin(op, l, r) =>
      var lhs := EmitExpr(s, q, l);
      if lhs.Failed? then Failed(NO_OPERANDS)
      else
        var rhs := EmitExpr(s, lhs.regs, r);
        if rhs.Failed? then Failed(NO_OPERANDS)
        else
          var c := EmitBinary(rhs.regs, op, lhs.val, rhs.val);
          if c.Failed? then c else Join(Join(lhs, rhs), c)
    case Call(f, args) =>
      if f !in s.sigs then Failed(BAD_CALLEE)
      else
        (match EmitArgs(s, q, args)
         case ArgsFailed(message) => Failed(message)
         case Args(instrs, q1, vs) =>
           if |vs| != s.sigs[f].arity then Failed(BAD_ARITY + f)
           else Code(instrs + [CallF(q1, f, s.sigs[f], vs)], q1 + 1, Reg(q1, s.sigs[f].ret)))
    case OtherExpr => Failed(BAD_EXPR)
  }

  /** A value for a consumer that needs an `int`: load it, then widen a truth value. */
  function EmitOperand(s: Scope, q: nat, e: Expr): (res: Code)
    ensures res.Code? ==> q <= res.regs
    decreases e, 2
  {
    var v := EmitExpr(s, q, e);
    if v.Failed? then v
    else
      var l := EmitLoad(v.regs, v.val);
      Join(Join(v, l), EmitCoerce(l.regs, l.val))
  }

  datatype ArgsCode = Args(instrs: Block, regs: nat, vals: seq<Val>) | ArgsFailed(message: string)

  function EmitArgs(s: Scope, q: nat, args: seq<Expr>): (res: ArgsCode)
    ensures res.Args? ==> q <= res.regs && |res.vals| == |args|
    decreases args, 0
  {
    if args == [] then Args([], q, [])
    else
      var v := EmitOperand(s, q, args[0]);
      if v.Failed? then ArgsFailed(v.message)
      else
        match EmitArgs(s, v.regs, args[1..])
        case ArgsFailed(message) => ArgsFailed(message)
        case Args(instrs, q1, vs) => Args(v.instrs + instrs, q1, [v.val] + vs)
  }

  /** Evaluate a condition and branch on it being nonzero. */
  function EmitCondition(s: Scope, q: nat, c: Expr, yes: nat, no: nat): (res: Code)
    ensures res.Code? ==> q <= res.regs
  {
    var v := EmitExpr(s, q, c);
    if v.Failed? then v
    else
      var l := EmitLoad(v.regs, v.val);
      var test := Code([ICmp(l.regs, INe, l.val, Const(TypeOf(l.val), 0))], l.regs + 1, Reg(l.regs, I1));
      var all := Join(Join(v, l), test);
      Code(all.instrs + [CondBr(all.val, yes, no)], all.regs, all.val)
  }

  // ----- statements -----

  /** The function under construction and the block instructions go to. Allocas go to the
      head of the entry block, before everything else, so they are only counted. */
  datatype BuilderState = BuilderState(
    sigs: Sigs,
    blocks: seq<Block>,
    cur: nat,
    locals: map<string, nat>,
    slots: nat,
    regs: nat)

  type Builder = b: BuilderState | b.cur < |b.blocks|
    witness BuilderState(map[], [[]], 0, map[], 0, 0)

  datatype Emitted = Ok(b: Builder) | Error(message: string)

  function ScopeOf(b: Builder): Scope { Scope(b.sigs, b.locals) }

  function Current(b: Builder): Block { b.blocks[b.cur] }

  predicate Terminated(b: Builder) { EndsInTerminator(Current(b)) }

  function Append(b: Builder, code: Block): Builder {
    b.(blocks := b.blocks[b.cur := Current(b) + code])
  }

  function AppendCode(b: Builder, c: Code): Builder
    requires c.Code?
  {
    Append(b, c.instrs).(regs := c.regs)
  }

  /** Emission appends to the current block and to blocks of its own. */
  predicate Extends(a: Builder, b: Builder) {
    && a.sigs == b.sigs
    && |a.blocks| <= |b.blocks|
    && Current(a) <= b.blocks[a.cur]
    && (b.cur == a.cur || b.cur >= |a.blocks|)
    && (forall k :: 0 <= k < |a.blocks| && k != a.cur ==> b.blocks[k] == a.blocks[k])
  }

  lemma ExtendsFrom(a: Builder, b: Builder, c: Builder)
    requires Extends(a, b) && Extends(b, c)
    ensures Extends(a, c)
  {
  }

  function EnterBlock(b: Builder, k: nat): Builder
    requires k < |b.blocks|
  {
    b.(cur := k)
  }

  /** Three fresh blocks, detached from everything so far. */
  function NewBlocks(b: Builder): Builder {
    b.(blocks := b.blocks + [[], [], []])
  }

  /** Jump to `target` unless the current block already ends. */
  function Close(b: Builder, target: nat): Builder {
    if Terminated(b) then b else Append(b, [Br(target)])
  }

  /** Moving on to another block of one's own. */
  lemma ExtendsMove(a: Builder, b: Builder, k: nat)
    requires Extends(a, b) && |a.blocks| <= k < |b.blocks|
    ensures Extends(a, EnterBlock(b, k))
  {
  }

  /** A declaration takes a fresh slot for its name. */
  function Allocate(b: Builder, x: string): Builder {
    b.(locals := b.locals[x := b.slots], slots := b.slots + 1)
  }

  function EmitReturn(b: Builder, value: Option<Expr>): (r: Emitted)
    ensures r.Ok? ==> Extends(b, r.b)
  {
    match value
    case None => Ok(Append(b, [RetVoid]))
    case Some(e) =>
      var v := EmitOperand(ScopeOf(b), b.regs, e);
      if v.Failed? then Error(v.message) else Ok(Append(AppendCode(b, v), [Ret(v.val)]))
  }

  function EmitDecl(b: Builder, x: string, init: Option<Expr>): (r: Emitted)
    ensures r.Ok? ==> Extends(b, r.b)
  {
    var b1 := Allocate(b, x);
    match init
    case None => Ok(b1)
    case Some(e) =>
      var v := EmitOperand(ScopeOf(b1), b1.regs, e);
      if v.Failed? then Error(v.message) else Ok(Append(AppendCode(b1, v), [Store(v.val, Slot(b.slots))]))
  }

  function EmitStmt(b: Builder, s: Stmt): (r: Emitted)
    ensures r.Ok? ==> Extends(b, r.b)
    decreases s, 1
  {
    match s
    case Compound(body) => EmitSeq(b, body)
    case OtherStmt(children) => EmitSeq(b, children)
    case Return(value) => EmitReturn(b, value)
    case Decl(x, init) => EmitDecl(b, x, init)
    case ExprStmt(e) =>
      var v := EmitExpr(ScopeOf(b), b.regs, e);
      if v.Failed? then Error(v.message) else Ok(AppendCode(b, v))
    case If(c, t, els) => EmitIf(b, c, t, els)
    case While(c, body) => EmitWhile(b, c, body)
  }

  function EmitSeq(b: Builder, ss: seq<Stmt>): (r: Emitted)
    ensures r.Ok? ==> Extends(b, r.b)
    decreases ss, 0
  {
    if ss == [] then Ok(b)
    else
      var r1 := EmitStmt(b, ss[0]);
      if r1.Error? then r1
      else
        var r2 := EmitSeq(r1.b, ss[1..]);
        assert r2.Ok? ==> Extends(b, r2.b) by { if r2.Ok? { ExtendsFrom(b, r1.b, r2.b); } }
        r2
  }

  /** The insert point of the `then` branch. */
  function IfEntry(b: Builder, c: Expr): (r: Builder)
    requires EmitCondition(ScopeOf(b), b.regs, c, |b.blocks|, |b.blocks| + 1).Code?
  {
    EnterBlock(AppendCode(NewBlocks(b), EmitCondition(ScopeOf(b), b.regs, c, |b.blocks|, |b.blocks| + 1)), |b.blocks|)
  }

  /** The insert point of a loop's condition. */
  function LoopHead(b: Builder): Builder {
    EnterBlock(Append(NewBlocks(b), [Br(|b.blocks|)]), |b.blocks|)
  }

  /** The insert point of a loop's body. */
  function LoopEntry(b: Builder, c: Expr): (r: Builder)
    requires EmitCondition(ScopeOf(b), b.regs, c, |b.blocks| + 1, |b.blocks| + 2).Code?
  {
    EnterBlock(AppendCode(LoopHead(b), EmitCondition(ScopeOf(b), b.regs, c, |b.blocks| + 1, |b.blocks| + 2)),
               |b.blocks| + 1)
  }

  /** The branch through `then` and `else` blocks to an `end` block. */
  function EmitIf(b: Builder, c: Expr, t: Stmt, els: Option<Stmt>): (r: Emitted)
    ensures r.Ok? ==> Extends(b, r.b)
    decreases If(c, t, els), 0
  {
    var n := |b.blocks|;
    var v := EmitCondition(ScopeOf(b), b.regs, c, n, n + 1);
    if v.Failed? then Error(v.message)
    else
      var b1 := IfEntry(b, c);
      assert Extends(b, b1) by { ExtendsMove(b, AppendCode(NewBlocks(b), v), n); }
      var r2 := EmitBranch(b1, t, n + 2);
      if r2.Error? then r2 else EmitElse(b, r2.b, n, els)
  }

  /** The rest of an `if` once its condition and `then` branch are there. */
  function EmitElse(b: Builder, b2: Builder, n: nat, els: Option<Stmt>): (r: Emitted)
    requires Extends(b, b2) && |b.blocks| <= n && n + 2 < |b2.blocks|
    ensures r.Ok? ==> Extends(b, r.b)
    decreases els, 3
  {
    var b3 := EnterBlock(b2, n + 1);
    var r4 := if els.None? then Ok(Close(b3, n + 2)) else EmitBranch(b3, els.value, n + 2);
    if r4.Error? then r4
    else
      assert Extends(b, r4.b) by { ExtendsFrom(b, b3, r4.b); }
      Ok(EnterBlock(r4.b, n + 2))
  }

  /** A statement followed by a jump to where control joins again. */
  function EmitBranch(b: Builder, s: Stmt, target: nat): (r: Emitted)
    ensures r.Ok? ==> Extends(b, r.b)
    decreases s, 2
  {
    var r1 := EmitStmt(b, s);
    if r1.Error? then r1
    else
      assert Extends(b, Close(r1.b, target)) by { ExtendsFrom(b, r1.b, Close(r1.b, target)); }
      Ok(Close(r1.b, target))
  }

  /** The loop: a `cond` block that the body jumps back to, and an `end` block. */
  function EmitWhile(b: Builder, c: Expr, body: Stmt): (r: Emitted)
    ensures r.Ok? ==> Extends(b, r.b)
    decreases While(c, body), 0
  {
    var n := |b.blocks|;
    var b1 := LoopHead(b);
    assert Extends(b, b1);
    var v := EmitCondition(ScopeOf(b1), b1.regs, c, n + 1, n + 2);
    if v.Failed? then Error(v.message)
    else
      var b2 := LoopEntry(b, c);
      assert Extends(b, b2) by { ExtendsMove(b, AppendCode(b1, v), n + 1); }
      var r3 := EmitBranch(b2, body, n);
      if r3.Error? then r3
      else
        assert Extends(b, r3.b) by { ExtendsFrom(b, b2, r3.b); }
        Ok(EnterBlock(r3.b, n + 2))
  }

  // ----- functions -----

  function RetTy(t: CType): Ty { if t == CVoid then Void else I32 }

  /** The entry block after the first `k` parameters have been spilled to their slots.
      Register i holds the i-th incoming argument. */
  function Prologue(sigs: Sigs, params: seq<string>, k: nat): (b: Builder)
    requires k <= |params|
    ensures b.cur == 0 && b.slots == k && b.regs == |params| && b.sigs == sigs && |b.blocks| == 1
  {
    if k == 0 then BuilderState(sigs, [[]], 0, map[], 0, |params|)
    else
      var b := Prologue(sigs, params, k - 1);
      Append(Allocate(b, params[k - 1]), [Store(Reg(k - 1, I32), Slot(k - 1))])
  }

  /** A default return where the last block of the body is still open. */
  function Finish(b: Builder, ret: CType): Builder {
    if Terminated(b) then b
    else Append(b, [if ret == CVoid then RetVoid else Ret(Const(I32, 0))])
  }

  /** A whole definition: prologue, body, default return. */
  function EmitDefinition(sigs: Sigs, f: Function): Emitted
    requires f.body.Some?
  {
    var r := EmitStmt(Prologue(sigs, f.params, |f.params|), f.body.value);
    if r.Error? then r else Ok(Finish(r.b, f.ret))
  }
}
