/** What lies outside the fragment, and exactly when it goes wrong. */
module Hazards {
  import opened Wrappers
  import opened CSource
  import opened LlvmIr
  import opened Emission
  import opened ExprMeaning
  import opened StmtMeaning

  /** Negating in the operand's own type is C's negation at i32 and only there. */
  lemma NegationAgreesExactly(t: Ty)
    requires IsInt(t)
    ensures (forall a {:trigger Fits(t, a)} :: Fits(t, a) ==>
              ArithValue(ISub, t, 0, a) == UnValue(Minus, a)) <==> t == I32
  {
    if t == I1 {
      assert Fits(t, 1) && ArithValue(ISub, t, 0, 1) == Some(1) && UnValue(Minus, 1) == Some(-1);
    }
  }

  /** `x = e` where `e` is emitted at i1: only the lowest byte of x is written. With `mid` the
      machine once `e` has been computed, x holds the value of `e` afterwards exactly when it
      held something before whose other bytes were zero. That is x's value in C if it has one,
      and whatever its slot holds if not: in a fresh slot nothing, and x is left without a value. */
  lemma TruthAssigned(s: Scope, q: nat, l: Expr, e: Expr, env: Env, st: CState, w: World, m: Machine)
    returns (mid: Machine, m1: Machine)
    requires LValue(l).Some? && LValue(l).value in env
    requires EmitExpr(s, q, e).Code? && TypeOf(EmitExpr(s, q, e).val) == I1
    requires WellTyped(EmitExpr(s, q, e).instrs) && SigsOk(s.sigs)
    requires Faithful(e, s.sigs) && Mirrors(m, env, st, s.locals)
    requires EvalExpr(e, env, st, w).Value?
    ensures var x := LValue(l).value;
            var Value(n, st1) := EvalExpr(e, env, st, w);
            && x in s.locals
            && Runs(EmitExpr(s, q, e).instrs, m, mid, w) && Mirrors(mid, env, st1, s.locals)
            && EmitExpr(s, q, Bin(Assign, l, e)).Code?
            && Runs(EmitExpr(s, q, Bin(Assign, l, e)).instrs, m, m1, w)
            && (HasValue(m1.mem, s.locals[x], n) <==>
                  s.locals[x] in mid.mem && mid.mem[s.locals[x]] % TWO32 < 256)
            && (env[x] in st1.store ==> (HasValue(m1.mem, s.locals[x], n) <==> 0 <= st1.store[env[x]] < 256))
            && (s.locals[x] !in mid.mem ==> s.locals[x] !in m1.mem)
  {
    hide Runs, WellTyped, Faithful, SigsOk, StoreInto;
    var x := LValue(l).value;
    var Value(n, st1) := EvalExpr(e, env, st, w);
    var c := EmitExpr(s, q, e);
    assert Cell(x, env, st, s.locals, m.mem);
    LValueCode(s, q, l);
    mid := ExprMeans(s, q, e, env, st, w, m);
    m1 := TruthStored(c.val, s.locals[x], n, mid, w);
    RunsThen(c.instrs, [Store(c.val, Slot(s.locals[x]))], m, mid, m1, w);
    assert EmitExpr(s, q, Bin(Assign, l, e)).instrs == c.instrs + [Store(c.val, Slot(s.locals[x]))];
    assert Cell(x, env, st1, s.locals, mid.mem);
    if env[x] in st1.store { SmallResidue(st1.store[env[x]]); }
  }

  /** Storing a truth value writes one byte of a slot. */
  lemma TruthStored(v: Val, k: nat, n: int, m: Machine, w: World) returns (m1: Machine)
    requires TypeOf(v) == I1 && ValueOf(v, m.regs) == Some(n) && 0 <= n <= 1
    ensures Runs([Store(v, Slot(k))], m, m1, w)
    ensures HasValue(m1.mem, k, n) <==> k in m.mem && m.mem[k] % TWO32 < 256
    ensures k !in m.mem ==> k !in m1.mem
  {
    hide RunCode;
    RunsOne(Store(v, Slot(k)), m, w);
    m1 := m.(mem := StoreInto(m.mem, k, I1, n));
    if k in m.mem { PartialStore(m.mem, k, n); }
  }

  lemma SmallResidue(v: int)
    requires InI32(v)
    ensures v % TWO32 < 256 <==> 0 <= v < 256
  {
  }

  /** With x at 256, `x = 0 < 1` leaves something other than 1. */
  lemma TruthAssignedWrong(w: World) returns (mid: Machine, m1: Machine)
    ensures var s, env := Scope(map[], map["x" := 0]), map["x" := 0];
            var st, m := CState(map[0 := 256], 1, []), Machine(map[], map[0 := 256], []);
            var e := Bin(LT, Lit(0), Lit(1));
            && Mirrors(m, env, st, s.locals) && EvalExpr(e, env, st, w) == Value(1, st)
            && EmitExpr(s, 0, Bin(Assign, Var("x"), e)).Code?
            && Runs(EmitExpr(s, 0, Bin(Assign, Var("x"), e)).instrs, m, m1, w) && !HasValue(m1.mem, 0, 1)
  {
    var s, env := Scope(map[], map["x" := 0]), map["x" := 0];
    var st, m := CState(map[0 := 256], 1, []), Machine(map[], map[0 := 256], []);
    ComparisonCode(s, env, st, w);
    hide EmitExpr, EvalExpr, WellTyped, Faithful, RunCode;
    mid, m1 := TruthAssigned(s, 0, Var("x"), Bin(LT, Lit(0), Lit(1)), env, st, w, m);
  }

  lemma ComparisonCode(s: Scope, env: Env, st: CState, w: World)
    ensures var e := Bin(LT, Lit(0), Lit(1));
            && EmitExpr(s, 0, e) == Code([ICmp(0, ISlt, Const(I32, 0), Const(I32, 1))], 1, Reg(0, I1))
            && WellTyped(EmitExpr(s, 0, e).instrs) && Faithful(e, s.sigs)
            && EvalExpr(e, env, st, w) == Value(1, st)
  {
    assert EmitExpr(s, 0, Lit(0)) == Code([], 0, Const(I32, 0)) && EmitExpr(s, 0, Lit(1)) == Code([], 0, Const(I32, 1));
    assert EmitBinary(0, LT, Const(I32, 0), Const(I32, 1)).instrs == [ICmp(0, ISlt, Const(I32, 0), Const(I32, 1))];
  }

  predicate HasValue(mem: Memory, k: nat, n: int) { k in mem && mem[k] == n }

  lemma PartialStore(mem: Memory, k: nat, n: int)
    requires k in mem && 0 <= n <= 1
    ensures StoreInto(mem, k, I1, n)[k] == n <==> mem[k] % TWO32 < 256
  {
  }

  /** `x op (x = e)`: the load of the bare left operand comes after the assignment, so the
      emitted operator sees the new value on both sides. Between the operands of arithmetic
      and comparisons C11 orders nothing (section 6.5, paragraph 2), so there the code is one of
      the outcomes it allows; but `&&` and `||` have a sequence point behind the left operand. */
  lemma LateLoad(s: Scope, q: nat, op: BinOp, x: string, e: Expr, env: Env, st: CState, w: World, m: Machine)
    returns (m1: Machine)
    requires op != Assign && x in env && x in s.locals
    requires EmitExpr(s, q, Bin(op, Var(x), Bin(Assign, Var(x), e))).Code?
    requires WellTyped(EmitExpr(s, q, Bin(op, Var(x), Bin(Assign, Var(x), e))).instrs) && SigsOk(s.sigs)
    requires Faithful(Bin(Assign, Var(x), e), s.sigs) && Mirrors(m, env, st, s.locals)
    requires EvalExpr(e, env, st, w).Value?
    requires var n := EvalExpr(e, env, st, w).n; BinValue(op, n, n).Some?
    ensures var n := EvalExpr(e, env, st, w).n;
            var c := EmitExpr(s, q, Bin(op, Var(x), Bin(Assign, Var(x), e)));
            && Runs(c.instrs, m, m1, w)
            && Holds(c.val, m1.regs, c.regs, BinValue(op, n, n).value)
  {
    hide RunCode;
    var a := Bin(Assign, Var(x), e);
    var n := EvalExpr(e, env, st, w).n;
    var c := EmitExpr(s, q, a);
    var lhs := Slot(s.locals[x]);
    var b := EmitBinary(c.regs, op, lhs, c.val);
    assert EmitExpr(s, q, Bin(op, Var(x), a)).instrs == [] + c.instrs + b.instrs;
    TypedParts([] + c.instrs, b.instrs);
    assert [] + c.instrs == c.instrs;
    EmittedType(s, q, a);
    var m2 := ExprMeans(s, q, a, env, st, w, m);
    assert Cell(x, env, EvalExpr(a, env, st, w).st, s.locals, m2.mem);
    m1 := BinaryMeans(c.regs, op, lhs, c.val, Var(x), a, s.locals, n, n, m2, w);
    RunsThen(c.instrs, b.instrs, m, m2, m1, w);
  }

  /** `x && (x = e)` and `x || (x = e)`: with x holding `before` and `e` giving `n`, the emitted
      code computes C's value exactly when the new value does not make a difference: for `&&`
      if n is zero or x was not zero, for `||` if n is not zero or x was. */
  lemma LateLoadAgreesExactly(s: Scope, q: nat, op: BinOp, x: string, e: Expr, env: Env, st: CState, w: World,
                              m: Machine)
    returns (m1: Machine)
    requires op == LAnd || op == LOr
    requires x in env && x in s.locals && env[x] in st.store
    requires EmitExpr(s, q, Bin(op, Var(x), Bin(Assign, Var(x), e))).Code?
    requires WellTyped(EmitExpr(s, q, Bin(op, Var(x), Bin(Assign, Var(x), e))).instrs) && SigsOk(s.sigs)
    requires Faithful(Bin(Assign, Var(x), e), s.sigs) && Mirrors(m, env, st, s.locals)
    requires EvalExpr(e, env, st, w).Value?
    ensures var all := Bin(op, Var(x), Bin(Assign, Var(x), e));
            var c, r := EmitExpr(s, q, all), EvalExpr(all, env, st, w);
            var n, before := EvalExpr(e, env, st, w).n, st.store[env[x]];
            && Runs(c.instrs, m, m1, w) && r.Value?
            && (ValueOf(c.val, m1.regs) == Some(r.n) <==>
                if op == LAnd then n == 0 || before != 0 else n != 0 || before == 0)
  {
    m1 := LateLoad(s, q, op, x, e, env, st, w, m);
  }

  /** The code of `x && (x = 1)`. */
  lemma LateLoadCode(s: Scope)
    requires s.locals == map["x" := 0]
    ensures var e := Bin(LAnd, Var("x"), Bin(Assign, Var("x"), Lit(1)));
            && EmitExpr(s, 0, e).Code? && WellTyped(EmitExpr(s, 0, e).instrs) && Faithful(e.r, s.sigs)
  {
    var r := Bin(Assign, Var("x"), Lit(1));
    AssignOneCode(s);
    EmittedBin(s, 0, LAnd, Var("x"), r);
    hide EmitExpr;
    assert EmitBinary(0, LAnd, Slot(0), Const(I32, 1)).instrs
           == [Load(0, Slot(0)), ICmp(1, INe, Reg(0, I32), Const(I32, 0)), ICmp(2, INe, Const(I32, 1), Const(I32, 0)),
               Arith(3, IAnd, Reg(1, I1), Reg(2, I1)), ZExt(4, Reg(3, I1))];
  }

  lemma AssignOneCode(s: Scope)
    requires s.locals == map["x" := 0]
    ensures EmitExpr(s, 0, Var("x")) == Code([], 0, Slot(0))
    ensures EmitExpr(s, 0, Bin(Assign, Var("x"), Lit(1))) == Code([Store(Const(I32, 1), Slot(0))], 0, Const(I32, 1))
  {
  }

  lemma EmittedBin(s: Scope, q: nat, op: BinOp, l: Expr, r: Expr)
    requires EmitExpr(s, q, l).Code? && EmitExpr(s, EmitExpr(s, q, l).regs, r).Code?
    ensures var lhs := EmitExpr(s, q, l);
            var rhs := EmitExpr(s, lhs.regs, r);
            var c := EmitBinary(rhs.regs, op, lhs.val, rhs.val);
            EmitExpr(s, q, Bin(op, l, r)) == if c.Failed? then c else Join(Join(lhs, rhs), c)
  {
  }

  lemma LateLoadValue(env: Env, st: CState, w: World)
    requires env == map["x" := 0] && st == CState(map[0 := 0], 1, [])
    ensures EvalExpr(Lit(1), env, st, w) == Value(1, st)
    ensures var r := EvalExpr(Bin(LAnd, Var("x"), Bin(Assign, Var("x"), Lit(1))), env, st, w); r.Value? && r.n == 0
  {
    assert EvalExpr(Var("x"), env, st, w) == Value(0, st);
    assert EvalExpr(Bin(Assign, Var("x"), Lit(1)), env, st, w) == Value(1, st.(store := st.store[0 := 1]));
  }

  /** With x at 0, `x && (x = 1)` is 0 in C, and the emitted code leaves something else. */
  lemma LateLoadDiffers(w: World) returns (m1: Machine)
    ensures var s, env := Scope(map[], map["x" := 0]), map["x" := 0];
            var st, m := CState(map[0 := 0], 1, []), Machine(map[], map[0 := 0], []);
            var e := Bin(LAnd, Var("x"), Bin(Assign, Var("x"), Lit(1)));
            && Mirrors(m, env, st, s.locals) && EmitExpr(s, 0, e).Code?
            && EvalExpr(e, env, st, w).Value? && EvalExpr(e, env, st, w).n == 0
            && Runs(EmitExpr(s, 0, e).instrs, m, m1, w)
            && ValueOf(EmitExpr(s, 0, e).val, m1.regs) != Some(0)
  {
    var s, env := Scope(map[], map["x" := 0]), map["x" := 0];
    var st, m := CState(map[0 := 0], 1, []), Machine(map[], map[0 := 0], []);
    LateLoadCode(s);
    LateLoadValue(env, st, w);
    hide EmitExpr, EvalExpr, WellTyped, Faithful, RunCode;
    m1 := LateLoadAgreesExactly(s, 0, LAnd, "x", Lit(1), env, st, w, m);
  }

  // ----- shadowing -----

  /** Whether a statement holds a declaration of x, at any depth. */
  predicate Declares(s: Stmt, x: string)
    decreases s
  {
    match s
    case Compound(body) => exists k :: 0 <= k < |body| && Declares(body[k], x)
    case OtherStmt(children) => exists k :: 0 <= k < |children| && Declares(children[k], x)
    case Decl(y, _) => y == x
    case If(_, t, els) => Declares(t, x) || (els.Some? && Declares(els.value, x))
    case While(_, body) => Declares(body, x)
    case _ => false
  }

  /** The slot a name has after a statement: its own, or a new one. */
  ghost predicate Rebound(b: Builder, b1: Builder, x: string, declared: bool)
    requires x in b.locals
  {
    && LocalsOk(b1) && b.slots <= b1.slots && x in b1.locals
    && (if declared then b1.locals[x] >= b.slots else b1.locals[x] == b.locals[x])
  }

  lemma {:induction false} StmtRebinds(b: Builder, s: Stmt, x: string)
    requires LocalsOk(b) && x in b.locals && EmitStmt(b, s).Ok?
    ensures Rebound(b, EmitStmt(b, s).b, x, Declares(s, x))
    decreases s, 1
  {
    match s
    case Compound(body) => SeqRebinds(b, body, x);
    case OtherStmt(children) => SeqRebinds(b, children, x);
    case If(c, t, els) => IfRebinds(b, c, t, els, x);
    case While(c, body) =>
      assert EmitWhile(b, c, body).Ok?;
      BranchRebinds(LoopEntry(b, c), body, |b.blocks|, x);
    case _ =>
  }

  lemma {:induction false} IfRebinds(b: Builder, c: Expr, t: Stmt, els: Option<Stmt>, x: string)
    requires LocalsOk(b) && x in b.locals && EmitIf(b, c, t, els).Ok?
    ensures Rebound(b, EmitIf(b, c, t, els).b, x, Declares(If(c, t, els), x))
    decreases If(c, t, els), 0
  {
    hide EmitBranch, EmitCondition;
    var n := |b.blocks|;
    BranchRebinds(IfEntry(b, c), t, n + 2, x);
    var b2 := EmitBranch(IfEntry(b, c), t, n + 2).b;
    assert EmitIf(b, c, t, els) == EmitElse(b, b2, n, els);
    ElseRebinds(b, b2, n, els, x, Declares(t, x));
  }

  lemma {:induction false} ElseRebinds(b: Builder, b2: Builder, n: nat, els: Option<Stmt>, x: string, declared: bool)
    requires Extends(b, b2) && |b.blocks| <= n && n + 2 < |b2.blocks| && EmitElse(b, b2, n, els).Ok?
    requires x in b.locals && Rebound(b, b2, x, declared)
    ensures Rebound(b, EmitElse(b, b2, n, els).b, x, declared || (els.Some? && Declares(els.value, x)))
    decreases els, 3
  {
    hide EmitBranch, Declares;
    if els.Some? { BranchRebinds(EnterBlock(b2, n + 1), els.value, n + 2, x); }
  }

  lemma {:induction false} BranchRebinds(b: Builder, s: Stmt, target: nat, x: string)
    requires LocalsOk(b) && x in b.locals && EmitBranch(b, s, target).Ok?
    ensures Rebound(b, EmitBranch(b, s, target).b, x, Declares(s, x))
    decreases s, 2
  {
    StmtRebinds(b, s, x);
  }

  lemma {:induction false} SeqRebinds(b: Builder, ss: seq<Stmt>, x: string)
    requires LocalsOk(b) && x in b.locals && EmitSeq(b, ss).Ok?
    ensures Rebound(b, EmitSeq(b, ss).b, x, exists k :: 0 <= k < |ss| && Declares(ss[k], x))
    decreases ss, 0
  {
    if ss != [] {
      StmtRebinds(b, ss[0], x);
      SeqRebinds(EmitStmt(b, ss[0]).b, ss[1..], x);
      assert (exists k :: 0 <= k < |ss| && Declares(ss[k], x)) <==>
             Declares(ss[0], x) || exists k :: 0 <= k < |ss[1..]| && Declares(ss[1..][k], x) by {
        if k :| 0 <= k < |ss| && Declares(ss[k], x) && k > 0 { assert Declares(ss[1..][k - 1], x); }
        if k :| 0 <= k < |ss[1..]| && Declares(ss[1..][k], x) { assert Declares(ss[k + 1], x); }
      }
    }
  }

  /** A name visible before a statement still names its own slot after it exactly when no
      declaration inside uses the name; a declaration in an inner block takes it over for good. */
  lemma ShadowingRebinds(b: Builder, s: Stmt, x: string)
    requires LocalsOk(b) && x in b.locals && EmitStmt(b, s).Ok?
    ensures var after := EmitStmt(b, s).b;
            EmitExpr(ScopeOf(after), after.regs, Var(x)) == Code([], after.regs, Slot(b.locals[x]))
            <==> !Declares(s, x)
  {
    StmtRebinds(b, s, x);
  }
}
