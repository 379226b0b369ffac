/** Emitted expressions compute what C says they compute. */
module ExprMeaning {
  import opened Wrappers
  import opened CSource
  import opened LlvmIr
  import opened Emission

  // ----- where the converter's i1 / i32 split is harmless -----

  /** The type the converter gives the value of an expression. */
  function ExprTy(e: Expr, sigs: Sigs): Ty {
    match e
    case Lit(_) => I32
    case Var(_) => I32
    case Paren(i) => ExprTy(i, sigs)
    case Cast(i) => ExprTy(i, sigs)
    case Un(_, i) => ExprTy(i, sigs)
    case Bin(op, l, r) =>
      if op == Assign then ExprTy(r, sigs)
      else if PredOf(op).Some? then I1
      else ExprTy(l, sigs)
    case Call(f, _) => if f in sigs then sigs[f].ret else I32
    case OtherExpr => I32
  }

  /** Operators that go wrong on two i1 operands. */
  predicate NeedsWideOperands(op: BinOp) {
    op in {Assign, Add, Sub, Div, Rem, LT, GT, LE, GE}
  }

  /** Whether evaluating `e` may assign to `x`. */
  predicate Assigns(e: Expr, x: string)
    decreases e
  {
    match e
    case Lit(_) => false
    case Var(_) => false
    case OtherExpr => false
    case Paren(i) => Assigns(i, x)
    case Cast(i) => Assigns(i, x)
    case Un(_, i) => Assigns(i, x)
    case Bin(op, l, r) => (op == Assign && LValue(l) == Some(x)) || Assigns(l, x) || Assigns(r, x)
    case Call(_, args) => exists k :: 0 <= k < |args| && Assigns(args[k], x)
  }

  /** Expressions on which the converter's shortcuts cannot be observed: no arithmetic,
      ordering, negation or plain assignment on the i1 result of a comparison, and no
      bare variable whose load the right operand overtakes with an assignment. */
  predicate Faithful(e: Expr, sigs: Sigs)
    decreases e
  {
    match e
    case Lit(n) => true
    case Var(_) => true
    case OtherExpr => true
    case Paren(i) => Faithful(i, sigs)
    case Cast(i) => Faithful(i, sigs)
    case Un(op, i) => Faithful(i, sigs) && (op == Minus ==> ExprTy(i, sigs) != I1)
    case Bin(op, l, r) =>
      && Faithful(l, sigs) && Faithful(r, sigs)
      && (NeedsWideOperands(op) ==> ExprTy(r, sigs) != I1)
      && (op != Assign && LValue(l).Some? ==> !Assigns(r, LValue(l).value))
    case Call(_, args) => forall k :: 0 <= k < |args| ==> Faithful(args[k], sigs)
  }

  // ----- the relation between a C state and a machine state -----

  predicate InI32(n: int) { -TWO31 <= n < TWO31 }

  predicate Fits(t: Ty, n: int) { if t == I1 then 0 <= n <= 1 else InI32(n) }

  predicate Cell(x: string, env: Env, st: CState, locals: map<string, nat>, mem: Memory)
    requires x in env
  {
    && env[x] < st.next
    && x in locals
    && (env[x] in st.store ==>
          locals[x] in mem && mem[locals[x]] == st.store[env[x]] && InI32(st.store[env[x]]))
  }

  /** Every visible variable has a slot of its own that holds its value. */
  ghost predicate Related(env: Env, st: CState, locals: map<string, nat>, mem: Memory) {
    && (forall x :: x in env ==> Cell(x, env, st, locals, mem))
    && (forall x, y :: x in env && y in env && x != y ==> env[x] != env[y])
    && (forall x, y :: x in env && y in env && x != y ==> locals[x] != locals[y])
  }

  predicate Kept(a: Regs, b: Regs, bound: nat) {
    forall r :: r in a && r < bound ==> r in b && b[r] == a[r]
  }

  /** A loaded value available in the registers. */
  predicate Holds(v: Val, regs: Regs, bound: nat, n: int) {
    && (v.Const? || v.Reg?)
    && ValueOf(v, regs) == Some(n)
    && (v.Reg? ==> v.id < bound)
    && TypeOf(v) != Ptr
    && Fits(TypeOf(v), n)
  }

  /** What an expression leaves: a register or constant, or, for a bare variable, the
      variable's slot, to be loaded when a consumer wants it. */
  predicate Denotes(v: Val, e: Expr, locals: map<string, nat>, m: Machine, bound: nat, n: int) {
    if v.Slot? then
      && LValue(e).Some? && LValue(e).value in locals && v == Slot(locals[LValue(e).value])
      && v.k in m.mem && m.mem[v.k] == n && InI32(n)
    else Holds(v, m.regs, bound, n)
  }

  lemma HoldsDenotes(v: Val, e: Expr, locals: map<string, nat>, m: Machine, bound: nat, n: int)
    requires Holds(v, m.regs, bound, n)
    ensures Denotes(v, e, locals, m, bound, n)
  {
  }

  /** The verifier's typing rules, on instructions that do not end a block. */
  predicate PlainOk(i: Instr) { i.IsTerminator() || InstrOk(i, Void, 0) }

  predicate WellTyped(code: Block) {
    forall i :: 0 <= i < |code| ==> PlainOk(code[i])
  }

  lemma TypedParts(a: Block, b: Block)
    requires WellTyped(a + b)
    ensures WellTyped(a) && WellTyped(b)
  {
    forall i | 0 <= i < |a| ensures PlainOk(a[i]) { assert (a + b)[i] == a[i]; }
    forall i | 0 <= i < |b| ensures PlainOk(b[i]) { assert (a + b)[|a| + i] == b[i]; }
  }

  /** Running `code` takes machine `m` to `m1`. */
  predicate Runs(code: Block, m: Machine, m1: Machine, w: World) {
    RunCode(code, m, w) == Some(m1)
  }

  lemma RunsThen(a: Block, b: Block, m: Machine, m1: Machine, m2: Machine, w: World)
    requires Runs(a, m, m1, w) && Runs(b, m1, m2, w)
    ensures Runs(a + b, m, m2, w)
  {
    RunCodeAppend(a, b, m, w);
  }

  lemma RunsNone(m: Machine, w: World)
    ensures Runs([], m, m, w)
  {
  }

  lemma RunsOne(i: Instr, m: Machine, w: World)
    requires !i.IsTerminator() && ExecPlain(i, m, w).Some?
    ensures Runs([i], m, ExecPlain(i, m, w).value, w)
  {
  }

  // ----- loads and coercions -----

  lemma LoadMeans(q: nat, v: Val, e: Expr, locals: map<string, nat>, n: int, m: Machine, w: World) returns (m1: Machine)
    requires Denotes(v, e, locals, m, q, n)
    ensures var c := EmitLoad(q, v);
            && Runs(c.instrs, m, m1, w)
            && m1 == m.(regs := m1.regs) && Kept(m.regs, m1.regs, q)
            && Holds(c.val, m1.regs, c.regs, n)
  {
    m1 := m;
    if v.Slot? {
      m1 := m.(regs := m.regs[q := n]);
      RunsOne(Load(q, v), m, w);
    }
  }

  lemma CoerceMeans(q: nat, v: Val, n: int, m: Machine, w: World) returns (m1: Machine)
    requires Holds(v, m.regs, q, n)
    ensures var c := EmitCoerce(q, v);
            && Runs(c.instrs, m, m1, w)
            && m1 == m.(regs := m1.regs) && Kept(m.regs, m1.regs, q)
            && Holds(c.val, m1.regs, c.regs, n) && TypeOf(c.val) != I1
  {
    m1 := m;
    if TypeOf(v) == I1 {
      m1 := m.(regs := m.regs[q := n]);
      RunsOne(ZExt(q, v), m, w);
    }
  }

  lemma ToTypeMeans(q: nat, v: Val, t: Ty, n: int, m: Machine, w: World) returns (m1: Machine)
    requires Holds(v, m.regs, q, n) && TypeOf(v) == I1 && t != Ptr
    ensures var c := EmitToType(q, v, t);
            && Runs(c.instrs, m, m1, w)
            && m1 == m.(regs := m1.regs) && Kept(m.regs, m1.regs, q)
            && Holds(c.val, m1.regs, c.regs, n)
  {
    m1 := m;
    if t != I1 {
      m1 := m.(regs := m.regs[q := n]);
      RunsOne(ZExt(q, v), m, w);
    }
  }

  // ----- operators -----

  /** On operands of type `t` the emitted instruction agrees with the C operator. */
  ghost predicate OperatorAgrees(op: BinOp, t: Ty) {
    forall a, b {:trigger EmittedValue(op, t, a, b)} :: Fits(t, a) && Fits(t, b) && BinValue(op, a, b).Some? ==>
      EmittedValue(op, t, a, b) == BinValue(op, a, b)
  }

  function EmittedValue(op: BinOp, t: Ty, a: int, b: int): Option<int> {
    if OpcodeOf(op).Some? then ArithValue(OpcodeOf(op).value, t, a, b)
    else if PredOf(op).Some? then Some(PredValue(PredOf(op).value, t, a, b))
    else None
  }

  /** The exclusion of `NeedsWideOperands` is exact: at i1 precisely those operators
      give some result that C does not; at i32 none does. */
  lemma OperatorAgreesExactly(op: BinOp, t: Ty)
    requires OpcodeOf(op).Some? || PredOf(op).Some?
    requires IsInt(t)
    ensures OperatorAgrees(op, t) <==> !(t == I1 && NeedsWideOperands(op))
  {
    if t == I1 && NeedsWideOperands(op) {
      // one witness per operator, all among the truth values
      var a, b := if op == Sub || op == LT || op == GE then 0 else 1, if op == GT || op == LE then 0 else 1;
      if op == GE { assert EmittedValue(op, t, 1, 0) != BinValue(op, 1, 0); }
      if op == GT { assert EmittedValue(op, t, 1, 0) != BinValue(op, 1, 0); }
      if op == LE { assert EmittedValue(op, t, 1, 0) != BinValue(op, 1, 0); }
      assert EmittedValue(op, t, a, b) != BinValue(op, a, b) || op == GE;
    } else if t == I1 {
      forall a, b | Fits(t, a) && Fits(t, b) && BinValue(op, a, b).Some?
        ensures EmittedValue(op, t, a, b) == BinValue(op, a, b)
      {
        assert a == 0 || a == 1;
        assert b == 0 || b == 1;
      }
    } else {
      forall a, b | Fits(t, a) && Fits(t, b) && BinValue(op, a, b).Some?
        ensures EmittedValue(op, t, a, b) == BinValue(op, a, b)
      {
      }
    }
  }

  /** One pure instruction. */
  lemma DefMeans(i: Instr, n: int, m: Machine, w: World)
    requires IsPure(i) && DefValue(i, m.regs) == Some(n)
    ensures Runs([i], m, m.(regs := m.regs[i.dst := n]), w)
  {
  }

  /** The two tests of `&&` and `||`, in registers q and q + 1. */
  lemma TestsMean(q: nat, l: Val, r: Val, a: int, b: int, m: Machine, w: World) returns (m1: Machine)
    requires Holds(l, m.regs, q, a) && Holds(r, m.regs, q, b)
    ensures var zero := Const(TypeOf(l), 0);
            Runs([ICmp(q, INe, l, zero), ICmp(q + 1, INe, r, zero)], m, m1, w)
    ensures m1 == m.(regs := m.regs[q := Truth(a != 0)][q + 1 := Truth(b != 0)])
  {
    var zero := Const(TypeOf(l), 0);
    var i, j := ICmp(q, INe, l, zero), ICmp(q + 1, INe, r, zero);
    var m2 := m.(regs := m.regs[q := Truth(a != 0)]);
    m1 := m2.(regs := m2.regs[q + 1 := Truth(b != 0)]);
    DefMeans(i, Truth(a != 0), m, w);
    DefMeans(j, Truth(b != 0), m2, w);
    RunsThen([i], [j], m, m2, m1, w);
    assert [i] + [j] == [i, j];
  }

  /** The instruction that combines the tests. */
  lemma CombineMeans(q: nat, op: BinOp, a: int, b: int, m: Machine, w: World) returns (m1: Machine)
    requires op == LAnd || op == LOr
    requires Holds(Reg(q, I1), m.regs, q + 2, Truth(a != 0)) && Holds(Reg(q + 1, I1), m.regs, q + 2, Truth(b != 0))
    ensures m1 == m.(regs := m.regs[q + 2 := BinValue(op, a, b).value])
    ensures Runs([Arith(q + 2, if op == LAnd then IAnd else IOr, Reg(q, I1), Reg(q + 1, I1))], m, m1, w)
  {
    var i := Arith(q + 2, if op == LAnd then IAnd else IOr, Reg(q, I1), Reg(q + 1, I1));
    m1 := m.(regs := m.regs[q + 2 := BinValue(op, a, b).value]);
    DefMeans(i, BinValue(op, a, b).value, m, w);
  }

  lemma LogicalMeans(q: nat, op: BinOp, l: Val, r: Val, a: int, b: int, m: Machine, w: World) returns (m1: Machine)
    requires op == LAnd || op == LOr
    requires Holds(l, m.regs, q, a) && Holds(r, m.regs, q, b)
    ensures var c := EmitLogical(q, op, l, r);
            && Runs(c.instrs, m, m1, w)
            && m1 == m.(regs := m1.regs) && Kept(m.regs, m1.regs, q)
            && Holds(c.val, m1.regs, c.regs, BinValue(op, a, b).value)
  {
    hide RunCode, ExecPlain, DefValue;
    var zero, code := Const(TypeOf(l), 0), if op == LAnd then IAnd else IOr;
    var i, j, k := ICmp(q, INe, l, zero), ICmp(q + 1, INe, r, zero), Arith(q + 2, code, Reg(q, I1), Reg(q + 1, I1));
    var m2 := TestsMean(q, l, r, a, b, m, w);
    var m3 := CombineMeans(q, op, a, b, m2, w);
    RunsThen([i, j], [k], m, m2, m3, w);
    assert [i, j] + [k] == [i, j, k];
    m1 := ToTypeMeans(q + 3, Reg(q + 2, I1), TypeOf(l), BinValue(op, a, b).value, m3, w);
    RunsThen([i, j, k], EmitToType(q + 3, Reg(q + 2, I1), TypeOf(l)).instrs, m, m3, m1, w);
  }

  /** An operator other than assignment, on loaded operands. */
  lemma OperatorMeans(q: nat, op: BinOp, l: Val, r: Val, a: int, b: int, m: Machine, w: World)
    returns (m1: Machine)
    requires BinValue(op, a, b).Some?
    requires EmitOperator(q, op, l, r).Code? && WellTyped(EmitOperator(q, op, l, r).instrs)
    requires Holds(l, m.regs, q, a) && Holds(r, m.regs, q, b)
    requires NeedsWideOperands(op) ==> TypeOf(r) != I1
    ensures var c := EmitOperator(q, op, l, r);
            && Runs(c.instrs, m, m1, w)
            && m1 == m.(regs := m1.regs) && Kept(m.regs, m1.regs, q)
            && Holds(c.val, m1.regs, c.regs, BinValue(op, a, b).value)
  {
    if OpcodeOf(op).Some? || PredOf(op).Some? {
      var i := if OpcodeOf(op).Some? then Arith(q, OpcodeOf(op).value, l, r) else ICmp(q, PredOf(op).value, l, r);
      assert EmitOperator(q, op, l, r).instrs[0] == i;
      var t := TypeOf(l);
      assert t == TypeOf(r) && IsInt(t);
      assert EmittedValue(op, t, a, b) == BinValue(op, a, b) by { OperatorAgreesExactly(op, t); }
      if t == I1 && op == Mul { assert (a == 0 || a == 1) && (b == 0 || b == 1); }
      DefMeans(i, BinValue(op, a, b).value, m, w);
      m1 := m.(regs := m.regs[q := BinValue(op, a, b).value]);
    } else {
      m1 := LogicalMeans(q, op, l, r, a, b, m, w);
    }
  }

  /** An operator other than assignment, on operands that may still be slots. */
  lemma BinaryMeans(q: nat, op: BinOp, lhs: Val, rhs: Val, l: Expr, r: Expr, locals: map<string, nat>,
                    a: int, b: int, m: Machine, w: World)
    returns (m1: Machine)
    requires op != Assign && BinValue(op, a, b).Some?
    requires EmitBinary(q, op, lhs, rhs).Code? && WellTyped(EmitBinary(q, op, lhs, rhs).instrs)
    requires Denotes(lhs, l, locals, m, q, a) && Denotes(rhs, r, locals, m, q, b)
    requires NeedsWideOperands(op) ==> TypeOf(rhs) != I1
    ensures var c := EmitBinary(q, op, lhs, rhs);
            && Runs(c.instrs, m, m1, w)
            && m1 == m.(regs := m1.regs) && Kept(m.regs, m1.regs, q)
            && Holds(c.val, m1.regs, c.regs, BinValue(op, a, b).value)
  {
    hide RunCode, EmitOperator;
    var cl := EmitLoad(q, lhs);
    var cr := EmitLoad(cl.regs, rhs);
    var co := EmitOperator(cr.regs, op, cl.val, cr.val);
    TypedParts(cl.instrs + cr.instrs, co.instrs);
    var m2 := LoadMeans(q, lhs, l, locals, a, m, w);
    var m3 := LoadMeans(cl.regs, rhs, r, locals, b, m2, w);
    RunsThen(cl.instrs, cr.instrs, m, m2, m3, w);
    m1 := OperatorMeans(cr.regs, op, cl.val, cr.val, a, b, m3, w);
    RunsThen(cl.instrs + cr.instrs, co.instrs, m, m3, m1, w);
  }

  lemma UnaryMeans(q: nat, op: UnOp, v: Val, n: int, m: Machine, w: World) returns (m1: Machine)
    requires EmitUnary(q, op, v).Code? && WellTyped(EmitUnary(q, op, v).instrs)
    requires Holds(v, m.regs, q, n) && UnValue(op, n).Some?
    requires op == Minus ==> TypeOf(v) != I1
    ensures var c := EmitUnary(q, op, v);
            && Runs(c.instrs, m, m1, w)
            && m1 == m.(regs := m1.regs) && Kept(m.regs, m1.regs, q)
            && Holds(c.val, m1.regs, c.regs, UnValue(op, n).value)
  {
    var zero := Const(TypeOf(v), 0);
    if op == Minus {
      var i := Arith(q, ISub, zero, v);
      assert EmitUnary(q, op, v).instrs[0] == i;
      DefMeans(i, Wrap32(-n), m, w);
      m1 := m.(regs := m.regs[q := Wrap32(-n)]);
    } else {
      var i := ICmp(q, IEq, v, zero);
      DefMeans(i, Truth(n == 0), m, w);
      var m2 := m.(regs := m.regs[q := Truth(n == 0)]);
      m1 := ToTypeMeans(q + 1, Reg(q, I1), TypeOf(v), Truth(n == 0), m2, w);
      RunsThen([i], EmitToType(q + 1, Reg(q, I1), TypeOf(v)).instrs, m, m2, m1, w);
    }
  }

  // ----- static types -----

  /** Functions return `int` or nothing. */
  predicate SigsOk(sigs: Sigs) { forall f :: f in sigs ==> sigs[f].ret == I32 || sigs[f].ret == Void }

  /** Only an expression `ExprTy` puts at i1 is emitted at i1. */
  lemma {:induction false} EmittedType(s: Scope, q: nat, e: Expr)
    requires EmitExpr(s, q, e).Code?
    ensures TypeOf(EmitExpr(s, q, e).val) == I1 ==> ExprTy(e, s.sigs) == I1
    decreases e
  {
    match e
    case Paren(i) => EmittedType(s, q, i);
    case Cast(i) => EmittedType(s, q, i);
    case Un(op, i) => EmittedType(s, q, i);
    case Bin(op, l, r) =>
      if op == Assign { EmittedType(s, EmitExpr(s, q, l).regs, r); }
      else if PredOf(op).None? { EmittedType(s, q, l); }
    case _ =>
  }

  // ----- variables -----

  /** Evaluating an expression leaves a variable alone that it does not assign. */
  lemma {:induction false} EvalKeeps(e: Expr, env: Env, st: CState, w: World, x: string)
    requires x in env && forall y :: y in env && y != x ==> env[y] != env[x]
    requires !Assigns(e, x)
    requires EvalExpr(e, env, st, w).Value?
    ensures var st1 := EvalExpr(e, env, st, w).st;
            && st1.next == st.next
            && (env[x] in st1.store <==> env[x] in st.store)
            && (env[x] in st.store ==> st1.store[env[x]] == st.store[env[x]])
    decreases e, 1
  {
    match e
    case Lit(_) =>
    case Var(_) =>
    case OtherExpr =>
    case Paren(i) => EvalKeeps(i, env, st, w, x);
    case Cast(i) => EvalKeeps(i, env, st, w, x);
    case Un(_, i) => EvalKeeps(i, env, st, w, x);
    case Call(_, args) => ArgsKeep(args, env, st, w, x);
    case Bin(op, l, r) =>
      if op == Assign {
        EvalKeeps(r, env, st, w, x);
      } else {
        EvalKeeps(l, env, st, w, x);
        EvalKeeps(r, env, EvalExpr(l, env, st, w).st, w, x);
      }
  }

  lemma {:induction false} ArgsKeep(args: seq<Expr>, env: Env, st: CState, w: World, x: string)
    requires x in env && forall y :: y in env && y != x ==> env[y] != env[x]
    requires forall k :: 0 <= k < |args| ==> !Assigns(args[k], x)
    requires EvalArgs(args, env, st, w).Values?
    ensures var st1 := EvalArgs(args, env, st, w).ast;
            && st1.next == st.next
            && (env[x] in st1.store <==> env[x] in st.store)
            && (env[x] in st.store ==> st1.store[env[x]] == st.store[env[x]])
    decreases args, 0
  {
    if args != [] {
      EvalKeeps(args[0], env, st, w, x);
      ArgsKeep(args[1..], env, EvalExpr(args[0], env, st, w).st, w, x);
    }
  }

  lemma {:induction false} LValueCode(s: Scope, q: nat, e: Expr)
    requires LValue(e).Some? && LValue(e).value in s.locals
    ensures EmitExpr(s, q, e) == Code([], q, Slot(s.locals[LValue(e).value]))
    decreases e
  {
    match e
    case Paren(i) => LValueCode(s, q, i);
    case Cast(i) => LValueCode(s, q, i);
    case _ =>
  }

  lemma {:induction false} LValueDefined(e: Expr, env: Env, st: CState, w: World)
    requires LValue(e).Some? && EvalExpr(e, env, st, w).Value?
    ensures var x := LValue(e).value;
            && x in env && env[x] in st.store
            && EvalExpr(e, env, st, w) == Value(st.store[env[x]], st)
    decreases e
  {
    match e
    case Paren(i) => LValueDefined(i, env, st, w);
    case Cast(i) => LValueDefined(i, env, st, w);
    case _ =>
  }

  /** Storing to a variable's slot is assigning to the variable. */
  lemma StoreRelated(env: Env, st: CState, locals: map<string, nat>, mem: Memory, x: string, n: int)
    requires Related(env, st, locals, mem) && x in env && InI32(n)
    ensures Related(env, st.(store := st.store[env[x] := n]), locals, mem[locals[x] := n])
  {
  }

  /** A left operand survives the evaluation of the right one. */
  lemma OperandSurvives(v: Val, l: Expr, r: Expr, n: int, env: Env, st0: CState, st: CState, w: World,
                        locals: map<string, nat>, m: Machine, q: nat, m1: Machine, q1: nat)
    requires EvalExpr(l, env, st0, w) == Value(n, st) && EvalExpr(r, env, st, w).Value?
    requires Denotes(v, l, locals, m, q, n)
    requires Related(env, st, locals, m.mem) && Related(env, EvalExpr(r, env, st, w).st, locals, m1.mem)
    requires Kept(m.regs, m1.regs, q) && q <= q1
    requires LValue(l).Some? ==> !Assigns(r, LValue(l).value)
    ensures Denotes(v, l, locals, m1, q1, n)
  {
    if v.Slot? {
      var x := LValue(l).value;
      LValueDefined(l, env, st0, w);
      EvalKeeps(r, env, st, w, x);
      assert Cell(x, env, EvalExpr(r, env, st, w).st, locals, m1.mem);
    }
  }

  // ----- whole expressions -----

  predicate HoldAll(vs: seq<Val>, regs: Regs, bound: nat, ns: seq<int>) {
    |vs| == |ns| && forall k :: 0 <= k < |vs| ==> Holds(vs[k], regs, bound, ns[k])
  }

  lemma HeldNone(regs: Regs, bound: nat)
    ensures HoldAll([], regs, bound, [])
  {
  }

  lemma HeldFirst(v: Val, vs: seq<Val>, regs: Regs, bound: nat, n: int, regs1: Regs, bound1: nat, ns: seq<int>)
    requires Holds(v, regs, bound, n) && Kept(regs, regs1, bound) && bound <= bound1
    requires HoldAll(vs, regs1, bound1, ns)
    ensures HoldAll([v] + vs, regs1, bound1, [n] + ns)
  {
  }

  lemma {:induction false} HeldArguments(vs: seq<Val>, regs: Regs, bound: nat, ns: seq<int>)
    requires HoldAll(vs, regs, bound, ns)
    ensures ArgValues(vs, regs) == Some(ns)
    decreases |vs|
  {
    if vs != [] {
      HeldArguments(vs[..|vs| - 1], regs, bound, ns[..|ns| - 1]);
      assert ns[..|ns| - 1] + [ns[|ns| - 1]] == ns;
    } else {
      assert ns == [];
    }
  }

  /** Where a machine stands when the C state is `st`. */
  ghost predicate Mirrors(m: Machine, env: Env, st: CState, locals: map<string, nat>) {
    Related(env, st, locals, m.mem) && m.trace == st.trace
  }

  /** What running an emitted expression achieves: the machine makes the calls C makes,
      and ends with the C state and the value. */
  ghost predicate ExprDone(s: Scope, q: nat, e: Expr, env: Env, st: CState, w: World, m: Machine, m1: Machine)
    requires EmitExpr(s, q, e).Code? && EvalExpr(e, env, st, w).Value?
  {
    var c := EmitExpr(s, q, e);
    var Value(n, st1) := EvalExpr(e, env, st, w);
    && Runs(c.instrs, m, m1, w)
    && Kept(m.regs, m1.regs, q)
    && Mirrors(m1, env, st1, s.locals)
    && Denotes(c.val, e, s.locals, m1, c.regs, n)
  }

  lemma {:induction false} ExprMeans(s: Scope, q: nat, e: Expr, env: Env, st: CState, w: World, m: Machine)
    returns (m1: Machine)
    requires EmitExpr(s, q, e).Code? && WellTyped(EmitExpr(s, q, e).instrs) && SigsOk(s.sigs)
    requires Faithful(e, s.sigs) && Mirrors(m, env, st, s.locals)
    requires EvalExpr(e, env, st, w).Value?
    ensures ExprDone(s, q, e, env, st, w, m, m1)
    decreases e, 1
  {
    match e
    case Lit(_) => m1 := m;
    case Var(x) =>
      assert Cell(x, env, st, s.locals, m.mem);
      m1 := m;
    case Paren(i) => m1 := ExprMeans(s, q, i, env, st, w, m);
    case Cast(i) => m1 := ExprMeans(s, q, i, env, st, w, m);
    case Un(op, i) => m1 := UnMeans(s, q, op, i, env, st, w, m);
    case Bin(op, l, r) =>
      if op == Assign { m1 := AssignMeans(s, q, l, r, env, st, w, m); }
      else { m1 := BinMeans(s, q, op, l, r, env, st, w, m); }
    case Call(f, args) => m1 := CallMeans(s, q, f, args, env, st, w, m);
  }

  lemma {:induction false} UnMeans(s: Scope, q: nat, op: UnOp, i: Expr, env: Env, st: CState, w: World, m: Machine)
    returns (m1: Machine)
    requires var e := Un(op, i);
             && EmitExpr(s, q, e).Code? && WellTyped(EmitExpr(s, q, e).instrs) && SigsOk(s.sigs)
             && Faithful(e, s.sigs) && Mirrors(m, env, st, s.locals)
             && EvalExpr(e, env, st, w).Value?
    ensures ExprDone(s, q, Un(op, i), env, st, w, m, m1)
    decreases Un(op, i), 0
  {
    hide RunCode, EmitUnary, Related, UnValue, Runs, Denotes, Holds;
    var v := EmitExpr(s, q, i);
    var l := EmitLoad(v.regs, v.val);
    var u := EmitUnary(l.regs, op, l.val);
    var n := EvalExpr(i, env, st, w).n;
    EmittedType(s, q, i);
    TypedParts(v.instrs + l.instrs, u.instrs);
    TypedParts(v.instrs, l.instrs);
    var m2 := ExprMeans(s, q, i, env, st, w, m);
    var m3 := LoadMeans(v.regs, v.val, i, s.locals, n, m2, w);
    m1 := UnaryMeans(l.regs, op, l.val, n, m3, w);
    RunsThen(v.instrs, l.instrs, m, m2, m3, w);
    RunsThen(v.instrs + l.instrs, u.instrs, m, m3, m1, w);
    HoldsDenotes(u.val, Un(op, i), s.locals, m1, u.regs, UnValue(op, n).value);
  }

  lemma {:induction false} BinMeans(s: Scope, q: nat, op: BinOp, l: Expr, r: Expr, env: Env, st: CState, w: World,
                                    m: Machine)
    returns (m1: Machine)
    requires op != Assign
    requires var e := Bin(op, l, r);
             && EmitExpr(s, q, e).Code? && WellTyped(EmitExpr(s, q, e).instrs) && SigsOk(s.sigs)
             && Faithful(e, s.sigs) && Mirrors(m, env, st, s.locals)
             && EvalExpr(e, env, st, w).Value?
    ensures ExprDone(s, q, Bin(op, l, r), env, st, w, m, m1)
    decreases Bin(op, l, r), 0
  {
    hide RunCode, EmitBinary, BinValue, Related, Runs, Denotes, Holds;
    var lhs := EmitExpr(s, q, l);
    var rhs := EmitExpr(s, lhs.regs, r);
    var c := EmitBinary(rhs.regs, op, lhs.val, rhs.val);
    var Value(a, st1) := EvalExpr(l, env, st, w);
    var Value(b, st2) := EvalExpr(r, env, st1, w);
    EmittedType(s, lhs.regs, r);
    TypedParts(lhs.instrs + rhs.instrs, c.instrs);
    TypedParts(lhs.instrs, rhs.instrs);
    var m2 := ExprMeans(s, q, l, env, st, w, m);
    var m3 := ExprMeans(s, lhs.regs, r, env, st1, w, m2);
    OperandSurvives(lhs.val, l, r, a, env, st, st1, w, s.locals, m2, lhs.regs, m3, rhs.regs);
    m1 := BinaryMeans(rhs.regs, op, lhs.val, rhs.val, l, r, s.locals, a, b, m3, w);
    RunsThen(lhs.instrs, rhs.instrs, m, m2, m3, w);
    RunsThen(lhs.instrs + rhs.instrs, c.instrs, m, m3, m1, w);
    HoldsDenotes(c.val, Bin(op, l, r), s.locals, m1, c.regs, BinValue(op, a, b).value);
  }

  lemma {:induction false} AssignMeans(s: Scope, q: nat, l: Expr, r: Expr, env: Env, st: CState, w: World, m: Machine)
    returns (m1: Machine)
    requires var e := Bin(Assign, l, r);
             && EmitExpr(s, q, e).Code? && WellTyped(EmitExpr(s, q, e).instrs) && SigsOk(s.sigs)
             && Faithful(e, s.sigs) && Mirrors(m, env, st, s.locals)
             && EvalExpr(e, env, st, w).Value?
    ensures ExprDone(s, q, Bin(Assign, l, r), env, st, w, m, m1)
    decreases Bin(Assign, l, r), 0
  {
    hide Runs, Related, SigsOk, Holds;
    var x := LValue(l).value;
    var Value(n, st1) := EvalExpr(r, env, st, w);
    MirroredLocal(m, env, st, s.locals, x);
    LValueCode(s, q, l);
    var rhs := EmitExpr(s, q, r);
    var v := EmitLoad(rhs.regs, rhs.val);
    var store := Store(v.val, Slot(s.locals[x]));
    assert EmitExpr(s, q, Bin(Assign, l, r)).instrs == rhs.instrs + (v.instrs + [store]);
    EmittedType(s, q, r);
    TypedParts(rhs.instrs, v.instrs + [store]);
    TypedParts(v.instrs, [store]);
    assert PlainOk([store][0]);
    var m2 := ExprMeans(s, q, r, env, st, w, m);
    var m3 := LoadMeans(rhs.regs, rhs.val, r, s.locals, n, m2, w);
    m1 := StoreRuns(v.val, v.regs, x, n, env, st1, s.locals, m3, w);
    RunsThen(v.instrs, [store], m2, m3, m1, w);
    RunsThen(rhs.instrs, v.instrs + [store], m, m2, m1, w);
    HoldsDenotes(v.val, Bin(Assign, l, r), s.locals, m1, v.regs, n);
  }

  lemma MirroredLocal(m: Machine, env: Env, st: CState, locals: map<string, nat>, x: string)
    requires Mirrors(m, env, st, locals) && x in env
    ensures x in locals
  {
    assert Cell(x, env, st, locals, m.mem);
  }

  /** Storing a loaded value in a variable's slot. */
  lemma StoreRuns(v: Val, bound: nat, x: string, n: int, env: Env, st: CState, locals: map<string, nat>, m: Machine,
                  w: World)
    returns (m1: Machine)
    requires Holds(v, m.regs, bound, n) && TypeOf(v) != I1 && TypeOf(v) != Void && Mirrors(m, env, st, locals)
    requires x in env && x in locals
    ensures Runs([Store(v, Slot(locals[x]))], m, m1, w) && m1 == m.(mem := m.mem[locals[x] := n])
    ensures Mirrors(m1, env, st.(store := st.store[env[x] := n]), locals)
  {
    m1 := m.(mem := m.mem[locals[x] := n]);
    RunsOne(Store(v, Slot(locals[x])), m, w);
    StoreRelated(env, st, locals, m.mem, x, n);
  }

  lemma {:induction false} OperandMeans(s: Scope, q: nat, e: Expr, env: Env, st: CState, w: World, m: Machine)
    returns (m1: Machine)
    requires EmitOperand(s, q, e).Code? && WellTyped(EmitOperand(s, q, e).instrs) && SigsOk(s.sigs)
    requires Faithful(e, s.sigs) && Mirrors(m, env, st, s.locals)
    requires EvalExpr(e, env, st, w).Value?
    ensures var c := EmitOperand(s, q, e);
            var Value(n, st1) := EvalExpr(e, env, st, w);
            && Runs(c.instrs, m, m1, w)
            && Kept(m.regs, m1.regs, q)
            && Mirrors(m1, env, st1, s.locals)
            && Holds(c.val, m1.regs, c.regs, n) && TypeOf(c.val) != I1
    decreases e, 2
  {
    hide RunCode, Runs;
    var v := EmitExpr(s, q, e);
    var l := EmitLoad(v.regs, v.val);
    var z := EmitCoerce(l.regs, l.val);
    var n := EvalExpr(e, env, st, w).n;
    TypedParts(v.instrs + l.instrs, z.instrs);
    TypedParts(v.instrs, l.instrs);
    var m2 := ExprMeans(s, q, e, env, st, w, m);
    var m3 := LoadMeans(v.regs, v.val, e, s.locals, n, m2, w);
    m1 := CoerceMeans(l.regs, l.val, n, m3, w);
    RunsThen(v.instrs, l.instrs, m, m2, m3, w);
    RunsThen(v.instrs + l.instrs, z.instrs, m, m3, m1, w);
  }

  lemma {:induction false} ArgsMean(s: Scope, q: nat, args: seq<Expr>, env: Env, st: CState, w: World, m: Machine)
    returns (m1: Machine)
    requires EmitArgs(s, q, args).Args? && WellTyped(EmitArgs(s, q, args).instrs) && SigsOk(s.sigs)
    requires (forall i :: 0 <= i < |args| ==> Faithful(args[i], s.sigs)) && Mirrors(m, env, st, s.locals)
    requires EvalArgs(args, env, st, w).Values?
    ensures var c := EmitArgs(s, q, args);
            var Values(ns, st1) := EvalArgs(args, env, st, w);
            && Runs(c.instrs, m, m1, w)
            && Kept(m.regs, m1.regs, q)
            && Mirrors(m1, env, st1, s.locals)
            && HoldAll(c.vals, m1.regs, c.regs, ns)
    decreases args, 0
  {
    hide RunCode, HoldAll, Holds;
    if args == [] {
      RunsNone(m, w);
      m1 := m;
      HeldNone(m.regs, q);
    } else {
      var v := EmitOperand(s, q, args[0]);
      var rest := EmitArgs(s, v.regs, args[1..]);
      var Value(n, st1) := EvalExpr(args[0], env, st, w);
      TypedParts(v.instrs, rest.instrs);
      var m2 := OperandMeans(s, q, args[0], env, st, w, m);
      m1 := ArgsMean(s, v.regs, args[1..], env, st1, w, m2);
      RunsThen(v.instrs, rest.instrs, m, m2, m1, w);
      HeldFirst(v.val, rest.vals, m2.regs, v.regs, n, m1.regs, rest.regs, EvalArgs(args[1..], env, st1, w).ns);
    }
  }

  /** An answered call: what the world answered, and the state before it otherwise. */
  lemma CallRuns(i: Instr, ns: seq<int>, env: Env, st: CState, locals: map<string, nat>, m: Machine, w: World)
    returns (m1: Machine)
    requires i.CallF? && ArgValues(i.args, m.regs) == Some(ns) && Mirrors(m, env, st, locals)
    requires w(st.trace, i.f, ns).Answered?
    ensures var Answered(n, after) := w(st.trace, i.f, ns);
            && Runs([i], m, m1, w)
            && m1 == Machine(m.regs[i.dst := Wrap32(n)], m.mem, after)
            && Mirrors(m1, env, st.(trace := after), locals)
  {
    hide RunCode, ArgValues;
    RunsOne(i, m, w);
    m1 := ExecPlain(i, m, w).value;
    forall x | x in env ensures Cell(x, env, st.(trace := m1.trace), locals, m1.mem) {
      assert Cell(x, env, st, locals, m.mem);
    }
  }

  lemma {:induction false} CallMeans(s: Scope, q: nat, f: string, args: seq<Expr>, env: Env, st: CState, w: World,
                                     m: Machine)
    returns (m1: Machine)
    requires var e := Call(f, args);
             && EmitExpr(s, q, e).Code? && WellTyped(EmitExpr(s, q, e).instrs) && SigsOk(s.sigs)
             && Faithful(e, s.sigs) && Mirrors(m, env, st, s.locals)
             && EvalExpr(e, env, st, w).Value?
    ensures ExprDone(s, q, Call(f, args), env, st, w, m, m1)
    decreases Call(f, args), 0
  {
    hide Runs, Mirrors;
    var c := EmitArgs(s, q, args);
    var Values(ns, st1) := EvalArgs(args, env, st, w);
    var i := CallF(c.regs, f, s.sigs[f], c.vals);
    TypedParts(c.instrs, [i]);
    var m2 := ArgsMean(s, q, args, env, st, w, m);
    HeldArguments(c.vals, m2.regs, c.regs, ns);
    m1 := CallRuns(i, ns, env, st1, s.locals, m2, w);
    RunsThen(c.instrs, [i], m, m2, m1, w);
  }
}
