/** Which C the converter accepts, read off the syntax: what it can emit at all, and what of that
    the module verifier then passes. */
module Acceptance {
  import opened Wrappers
  import opened CSource
  import opened LlvmIr
  import opened Emission
  import StmtMeaning

  // ----- what can be emitted -----

  /** Every name is a local or a function, every call is of a function with that many
      parameters, and nothing is outside the subset. */
  predicate Supported(e: Expr, names: set<string>, sigs: Sigs)
    decreases e
  {
    match e
    case Lit(_) => true
    case Var(x) => x in names || x in sigs
    case Paren(i) => Supported(i, names, sigs)
    case Cast(i) => Supported(i, names, sigs)
    case Un(op, i) => op != OtherUn && Supported(i, names, sigs)
    case Bin(op, l, r) => op != OtherBin && Supported(l, names, sigs) && Supported(r, names, sigs)
    case Call(f, args) =>
      f in sigs && |args| == sigs[f].arity && forall k :: 0 <= k < |args| ==> Supported(args[k], names, sigs)
    case OtherExpr => false
  }

  /** The names declared so far; leaving a block forgets none of them. */
  function NamesAfter(s: Stmt, names: set<string>): set<string>
    decreases s, 1
  {
    match s
    case Compound(body) => NamesAfterSeq(body, names)
    case OtherStmt(children) => NamesAfterSeq(children, names)
    case Decl(x, _) => names + {x}
    case If(_, t, els) => if els.Some? then NamesAfter(els.value, NamesAfter(t, names)) else NamesAfter(t, names)
    case While(_, body) => NamesAfter(body, names)
    case _ => names
  }

  function NamesAfterSeq(ss: seq<Stmt>, names: set<string>): set<string>
    decreases ss, 0
  {
    if ss == [] then names else NamesAfterSeq(ss[1..], NamesAfter(ss[0], names))
  }

  predicate SupportedStmt(s: Stmt, names: set<string>, sigs: Sigs)
    decreases s, 1
  {
    match s
    case Compound(body) => SupportedSeq(body, names, sigs)
    case OtherStmt(children) => SupportedSeq(children, names, sigs)
    case Return(value) => value.Some? ==> Supported(value.value, names, sigs)
    case Decl(x, init) => init.Some? ==> Supported(init.value, names + {x}, sigs)
    case ExprStmt(e) => Supported(e, names, sigs)
    case If(c, t, els) =>
      && Supported(c, names, sigs) && SupportedStmt(t, names, sigs)
      && (els.Some? ==> SupportedStmt(els.value, NamesAfter(t, names), sigs))
    case While(c, body) => Supported(c, names, sigs) && SupportedStmt(body, names, sigs)
  }

  predicate SupportedSeq(ss: seq<Stmt>, names: set<string>, sigs: Sigs)
    decreases ss, 0
  {
    ss == [] || (SupportedStmt(ss[0], names, sigs) && SupportedSeq(ss[1..], NamesAfter(ss[0], names), sigs))
  }

  /** Exactly the supported expressions are emitted. */
  lemma {:induction false} ExprEmits(s: Scope, q: nat, e: Expr)
    ensures EmitExpr(s, q, e).Code? <==> Supported(e, s.locals.Keys, s.sigs)
    decreases e, 1
  {
    match e
    case Lit(_) =>
    case Var(_) =>
    case OtherExpr =>
    case Paren(i) => ExprEmits(s, q, i);
    case Cast(i) => ExprEmits(s, q, i);
    case Un(op, i) => ExprEmits(s, q, i);
    case Bin(op, l, r) =>
      ExprEmits(s, q, l);
      if EmitExpr(s, q, l).Code? { ExprEmits(s, EmitExpr(s, q, l).regs, r); }
    case Call(f, args) => ArgsEmit(s, q, args);
  }

  lemma {:induction false} ArgsEmit(s: Scope, q: nat, args: seq<Expr>)
    ensures EmitArgs(s, q, args).Args? <==> forall k :: 0 <= k < |args| ==> Supported(args[k], s.locals.Keys, s.sigs)
    decreases args, 0
  {
    if args != [] {
      ExprEmits(s, q, args[0]);
      if EmitOperand(s, q, args[0]).Code? { ArgsEmit(s, EmitOperand(s, q, args[0]).regs, args[1..]); }
      assert forall k :: 1 <= k < |args| ==> args[k] == args[1..][k - 1];
    }
  }

  /** Exactly the supported statements are emitted, and they leave these names. */
  lemma {:induction false} StmtEmits(b: Builder, s: Stmt)
    ensures EmitStmt(b, s).Ok? <==> SupportedStmt(s, b.locals.Keys, b.sigs)
    ensures EmitStmt(b, s).Ok? ==> EmitStmt(b, s).b.locals.Keys == NamesAfter(s, b.locals.Keys)
    decreases s, 1
  {
    match s
    case Compound(body) => SeqEmits(b, body);
    case OtherStmt(children) => SeqEmits(b, children);
    case Return(value) => if value.Some? { ExprEmits(ScopeOf(b), b.regs, value.value); }
    case Decl(x, init) =>
      var b1 := Allocate(b, x);
      assert b1.locals.Keys == b.locals.Keys + {x};
      if init.Some? { ExprEmits(ScopeOf(b1), b1.regs, init.value); }
    case ExprStmt(e) => ExprEmits(ScopeOf(b), b.regs, e);
    case If(c, t, els) => IfEmits(b, c, t, els);
    case While(c, body) => WhileEmits(b, c, body);
  }

  lemma {:induction false} SeqEmits(b: Builder, ss: seq<Stmt>)
    ensures EmitSeq(b, ss).Ok? <==> SupportedSeq(ss, b.locals.Keys, b.sigs)
    ensures EmitSeq(b, ss).Ok? ==> EmitSeq(b, ss).b.locals.Keys == NamesAfterSeq(ss, b.locals.Keys)
    decreases ss, 0
  {
    if ss != [] {
      StmtEmits(b, ss[0]);
      if EmitStmt(b, ss[0]).Ok? { SeqEmits(EmitStmt(b, ss[0]).b, ss[1..]); }
    }
  }

  lemma ConditionEmits(s: Scope, q: nat, c: Expr, yes: nat, no: nat)
    ensures EmitCondition(s, q, c, yes, no).Code? <==> Supported(c, s.locals.Keys, s.sigs)
  {
    ExprEmits(s, q, c);
  }

  lemma {:induction false} IfEmits(b: Builder, c: Expr, t: Stmt, els: Option<Stmt>)
    ensures EmitIf(b, c, t, els).Ok? <==> SupportedStmt(If(c, t, els), b.locals.Keys, b.sigs)
    ensures EmitIf(b, c, t, els).Ok? ==>
              EmitIf(b, c, t, els).b.locals.Keys == NamesAfter(If(c, t, els), b.locals.Keys)
    decreases If(c, t, els), 0
  {
    hide EmitCondition, EmitStmt, EmitBranch, EmitElse, Supported;
    var n := |b.blocks|;
    ConditionEmits(ScopeOf(b), b.regs, c, n, n + 1);
    if EmitCondition(ScopeOf(b), b.regs, c, n, n + 1).Code? {
      var b1 := IfEntry(b, c);
      BranchEmits(b1, t, n + 2);
      if EmitBranch(b1, t, n + 2).Ok? { ElseEmits(b, EmitBranch(b1, t, n + 2).b, n, els); }
    }
  }

  lemma {:induction false} ElseEmits(b: Builder, b2: Builder, n: nat, els: Option<Stmt>)
    requires Extends(b, b2) && |b.blocks| <= n && n + 2 < |b2.blocks|
    ensures EmitElse(b, b2, n, els).Ok? <==> (els.Some? ==> SupportedStmt(els.value, b2.locals.Keys, b2.sigs))
    ensures EmitElse(b, b2, n, els).Ok? ==>
              EmitElse(b, b2, n, els).b.locals.Keys
              == if els.Some? then NamesAfter(els.value, b2.locals.Keys) else b2.locals.Keys
    decreases els, 3
  {
    hide EmitStmt, EmitBranch, Extends, SupportedStmt, NamesAfter;
    if els.Some? { BranchEmits(EnterBlock(b2, n + 1), els.value, n + 2); }
  }

  lemma {:induction false} WhileEmits(b: Builder, c: Expr, body: Stmt)
    ensures EmitWhile(b, c, body).Ok? <==> SupportedStmt(While(c, body), b.locals.Keys, b.sigs)
    ensures EmitWhile(b, c, body).Ok? ==>
              EmitWhile(b, c, body).b.locals.Keys == NamesAfter(While(c, body), b.locals.Keys)
    decreases While(c, body), 0
  {
    hide EmitCondition, EmitStmt, EmitBranch, LoopHead, LoopEntry, Supported, Extends;
    var n := |b.blocks|;
    LoopScope(b, c);
    ConditionEmits(ScopeOf(b), b.regs, c, n + 1, n + 2);
    if EmitCondition(ScopeOf(b), b.regs, c, n + 1, n + 2).Code? { BranchEmits(LoopEntry(b, c), body, n); }
  }

  lemma LoopScope(b: Builder, c: Expr)
    ensures ScopeOf(LoopHead(b)) == ScopeOf(b) && LoopHead(b).regs == b.regs
    ensures EmitCondition(ScopeOf(b), b.regs, c, |b.blocks| + 1, |b.blocks| + 2).Code? ==>
              ScopeOf(LoopEntry(b, c)) == ScopeOf(b)
  {
    hide EmitCondition;
  }

  lemma {:induction false} BranchEmits(b: Builder, s: Stmt, target: nat)
    ensures EmitBranch(b, s, target).Ok? <==> SupportedStmt(s, b.locals.Keys, b.sigs)
    ensures EmitBranch(b, s, target).Ok? ==>
              EmitBranch(b, s, target).b.locals.Keys == NamesAfter(s, b.locals.Keys)
    decreases s, 2
  {
    StmtEmits(b, s);
  }

  // ----- types -----

  /** The type of an expression's value, once loaded. */
  function ValueTy(e: Expr, names: set<string>, sigs: Sigs): Ty {
    match e
    case Lit(_) => I32
    case Var(x) => if x in names then I32 else Ptr
    case Paren(i) => ValueTy(i, names, sigs)
    case Cast(i) => ValueTy(i, names, sigs)
    case Un(_, i) => ValueTy(i, names, sigs)
    case Bin(op, l, r) =>
      if op == Assign then ValueTy(r, names, sigs)
      else if op in {LT, GT, LE, GE, EQ, NE} then I1
      else ValueTy(l, names, sigs)
    case Call(f, _) => if f in sigs then sigs[f].ret else Void
    case OtherExpr => Void
  }

  /** What can be assigned to. */
  predicate IsPlace(e: Expr, names: set<string>, sigs: Sigs) { LValue(e).Some? || ValueTy(e, names, sigs) == Ptr }

  /** Operands have the types their operators take. */
  predicate Typed(e: Expr, names: set<string>, sigs: Sigs)
    decreases e
  {
    match e
    case Lit(_) => true
    case Var(_) => true
    case OtherExpr => true
    case Paren(i) => Typed(i, names, sigs)
    case Cast(i) => Typed(i, names, sigs)
    case Un(op, i) =>
      Typed(i, names, sigs) && if op == Minus then IsInt(ValueTy(i, names, sigs)) else ValueTy(i, names, sigs) != Void
    case Bin(op, l, r) =>
      var t, u := ValueTy(l, names, sigs), ValueTy(r, names, sigs);
      && Typed(l, names, sigs) && Typed(r, names, sigs)
      && (if op == Assign then IsPlace(l, names, sigs) && u != Void
          else t == u && (if op in {Add, Sub, Mul, Div, Rem} then IsInt(t) else t != Void))
    case Call(_, args) =>
      forall k :: 0 <= k < |args| ==> Typed(args[k], names, sigs) && IsInt(ValueTy(args[k], names, sigs))
  }

  /** The verifier's rules for code within a block. */
  predicate CodeOk(code: Block, ret: Ty, n: nat) {
    forall i :: 0 <= i < |code| ==> InstrOk(code[i], ret, n)
  }

  predicate NoneEnds(code: Block) { forall i :: 0 <= i < |code| ==> !code[i].IsTerminator() }

  lemma CodeOkParts(a: Block, b: Block, ret: Ty, n: nat)
    ensures CodeOk(a + b, ret, n) <==> CodeOk(a, ret, n) && CodeOk(b, ret, n)
    ensures NoneEnds(a + b) <==> NoneEnds(a) && NoneEnds(b)
  {
    hide InstrOk;
    if CodeOk(a + b, ret, n) {
      forall i | 0 <= i < |a| ensures InstrOk(a[i], ret, n) { assert (a + b)[i] == a[i]; }
      forall i | 0 <= i < |b| ensures InstrOk(b[i], ret, n) { assert (a + b)[|a| + i] == b[i]; }
    }
    if NoneEnds(a + b) {
      forall i | 0 <= i < |a| ensures !a[i].IsTerminator() { assert (a + b)[i] == a[i]; }
      forall i | 0 <= i < |b| ensures !b[i].IsTerminator() { assert (a + b)[|a| + i] == b[i]; }
    }
  }

  lemma OneOk(i: Instr, ret: Ty, n: nat)
    ensures CodeOk([i], ret, n) <==> InstrOk(i, ret, n)
    ensures NoneEnds([i]) <==> !i.IsTerminator()
  {
    assert [i][0] == i;
  }

  lemma NothingOk(ret: Ty, n: nat)
    ensures CodeOk([], ret, n) && NoneEnds([])
  {
  }

  /** A value has the type of its expression, its code is well typed exactly when the expression
      is, and only a local is left as its slot. */
  ghost predicate TypesAs(c: Code, e: Expr, names: set<string>, sigs: Sigs, ret: Ty, n: nat)
    requires c.Code?
  {
    && NoneEnds(c.instrs) && (CodeOk(c.instrs, ret, n) <==> Typed(e, names, sigs))
    && TypeOf(EmitLoad(c.regs, c.val).val) == ValueTy(e, names, sigs)
    && (TypeOf(c.val) == Ptr <==> IsPlace(e, names, sigs))
    && (c.val.Slot? ==> LValue(e).Some?)
  }

  lemma LoadOk(q: nat, v: Val, ret: Ty, n: nat)
    ensures NoneEnds(EmitLoad(q, v).instrs) && CodeOk(EmitLoad(q, v).instrs, ret, n)
    ensures !EmitLoad(q, v).val.Slot?
  {
  }

  lemma CoerceOk(q: nat, v: Val, ret: Ty, n: nat)
    ensures var c := EmitCoerce(q, v);
            && NoneEnds(c.instrs) && CodeOk(c.instrs, ret, n)
            && TypeOf(c.val) == (if TypeOf(v) == I1 then I32 else TypeOf(v))
  {
  }

  lemma UnaryOk(q: nat, op: UnOp, v: Val, ret: Ty, n: nat)
    requires op != OtherUn && !v.Slot?
    ensures var c := EmitUnary(q, op, v);
            && NoneEnds(c.instrs) && TypeOf(c.val) == TypeOf(v) && !c.val.Slot?
            && (CodeOk(c.instrs, ret, n) <==> if op == Minus then IsInt(TypeOf(v)) else TypeOf(v) != Void)
  {
    var i := if op == Minus then Arith(q, ISub, Const(TypeOf(v), 0), v) else ICmp(q, IEq, v, Const(TypeOf(v), 0));
    OneOk(i, ret, n);
    var more := EmitToType(q + 1, Reg(q, I1), TypeOf(v)).instrs;
    CodeOkParts([i], more, ret, n);
    assert TypeOf(v) != I1 ==> more == [ZExt(q + 1, Reg(q, I1))];
  }

  lemma LogicalOk(q: nat, op: BinOp, l: Val, r: Val, ret: Ty, n: nat)
    ensures var c := EmitLogical(q, op, l, r);
            && NoneEnds(c.instrs) && TypeOf(c.val) == TypeOf(l) && !c.val.Slot?
            && (CodeOk(c.instrs, ret, n) <==> TypeOf(l) == TypeOf(r) && TypeOf(l) != Void)
  {
    var zero, code := Const(TypeOf(l), 0), if op == LAnd then IAnd else IOr;
    var tests := [ICmp(q, INe, l, zero), ICmp(q + 1, INe, r, zero), Arith(q + 2, code, Reg(q, I1), Reg(q + 1, I1))];
    var more := EmitToType(q + 3, Reg(q + 2, I1), TypeOf(l)).instrs;
    assert CodeOk(tests, ret, n) <==> InstrOk(tests[0], ret, n) && InstrOk(tests[1], ret, n);
    CodeOkParts(tests, more, ret, n);
    assert TypeOf(l) != I1 ==> more == [ZExt(q + 3, Reg(q + 2, I1))];
  }

  lemma OperatorOk(q: nat, op: BinOp, l: Val, r: Val, ret: Ty, n: nat)
    requires op != Assign && op != OtherBin && !l.Slot?
    ensures EmitOperator(q, op, l, r).Code?
    ensures var c := EmitOperator(q, op, l, r);
            && NoneEnds(c.instrs) && !c.val.Slot?
            && TypeOf(c.val) == (if op in {LT, GT, LE, GE, EQ, NE} then I1 else TypeOf(l))
            && (CodeOk(c.instrs, ret, n) <==>
                  TypeOf(l) == TypeOf(r)
                  && if op in {Add, Sub, Mul, Div, Rem} then IsInt(TypeOf(l)) else TypeOf(l) != Void)
  {
    if op == LAnd || op == LOr {
      LogicalOk(q, op, l, r, ret, n);
    } else {
      OneOk(EmitOperator(q, op, l, r).instrs[0], ret, n);
    }
  }

  lemma BinaryOk(q: nat, op: BinOp, lhs: Val, rhs: Val, ret: Ty, n: nat)
    requires op != OtherBin
    ensures EmitBinary(q, op, lhs, rhs).Code?
    ensures var c := EmitBinary(q, op, lhs, rhs);
            var t, u := TypeOf(EmitLoad(q, lhs).val), TypeOf(EmitLoad(q, rhs).val);
            && NoneEnds(c.instrs) && !c.val.Slot?
            && TypeOf(c.val) == (if op == Assign then u else if op in {LT, GT, LE, GE, EQ, NE} then I1 else t)
            && (CodeOk(c.instrs, ret, n) <==>
                  if op == Assign then TypeOf(lhs) == Ptr && u != Void
                  else t == u && if op in {Add, Sub, Mul, Div, Rem} then IsInt(t) else t != Void)
  {
    hide EmitOperator, NoneEnds, CodeOk;
    LoadOk(q, lhs, ret, n);
    if op == Assign {
      var v := EmitLoad(q, rhs);
      LoadOk(q, rhs, ret, n);
      OneOk(Store(v.val, lhs), ret, n);
      CodeOkParts(v.instrs, [Store(v.val, lhs)], ret, n);
    } else {
      var l := EmitLoad(q, lhs);
      var r := EmitLoad(l.regs, rhs);
      LoadOk(l.regs, rhs, ret, n);
      OperatorOk(r.regs, op, l.val, r.val, ret, n);
      CodeOkParts(l.instrs, r.instrs, ret, n);
      CodeOkParts(l.instrs + r.instrs, EmitOperator(r.regs, op, l.val, r.val).instrs, ret, n);
    }
  }

  /** The type of a value does not depend on the register it comes in. */
  lemma LoadedType(q: nat, p: nat, v: Val)
    ensures TypeOf(EmitLoad(q, v).val) == TypeOf(EmitLoad(p, v).val) == if v.Slot? then I32 else TypeOf(v)
  {
  }

  lemma {:induction false} ExprTypes(s: Scope, q: nat, e: Expr, ret: Ty, n: nat)
    requires EmitExpr(s, q, e).Code?
    ensures TypesAs(EmitExpr(s, q, e), e, s.locals.Keys, s.sigs, ret, n)
    decreases e, 1
  {
    match e
    case Lit(_) => NothingOk(ret, n);
    case Var(_) => NothingOk(ret, n);
    case Paren(i) => ExprTypes(s, q, i, ret, n);
    case Cast(i) => ExprTypes(s, q, i, ret, n);
    case Un(op, i) => UnTypes(s, q, op, i, ret, n);
    case Bin(op, l, r) => BinTypes(s, q, op, l, r, ret, n);
    case Call(f, args) => CallTypes(s, q, f, args, ret, n);
  }

  lemma {:induction false} UnTypes(s: Scope, q: nat, op: UnOp, i: Expr, ret: Ty, n: nat)
    requires EmitExpr(s, q, Un(op, i)).Code?
    ensures TypesAs(EmitExpr(s, q, Un(op, i)), Un(op, i), s.locals.Keys, s.sigs, ret, n)
    decreases Un(op, i), 0
  {
    hide EmitUnary, CodeOk, NoneEnds;
    ExprEmits(s, q, Un(op, i));
    var v := EmitExpr(s, q, i);
    var l := EmitLoad(v.regs, v.val);
    var u := EmitUnary(l.regs, op, l.val);
    ExprTypes(s, q, i, ret, n);
    LoadOk(v.regs, v.val, ret, n);
    UnaryOk(l.regs, op, l.val, ret, n);
    CodeOkParts(v.instrs, l.instrs, ret, n);
    CodeOkParts(v.instrs + l.instrs, u.instrs, ret, n);
  }

  lemma {:induction false} BinTypes(s: Scope, q: nat, op: BinOp, l: Expr, r: Expr, ret: Ty, n: nat)
    requires EmitExpr(s, q, Bin(op, l, r)).Code?
    ensures TypesAs(EmitExpr(s, q, Bin(op, l, r)), Bin(op, l, r), s.locals.Keys, s.sigs, ret, n)
    decreases Bin(op, l, r), 0
  {
    hide EmitBinary, CodeOk, NoneEnds;
    ExprEmits(s, q, Bin(op, l, r));
    var lhs := EmitExpr(s, q, l);
    var rhs := EmitExpr(s, lhs.regs, r);
    var c := EmitBinary(rhs.regs, op, lhs.val, rhs.val);
    ExprTypes(s, q, l, ret, n);
    ExprTypes(s, lhs.regs, r, ret, n);
    LoadedType(lhs.regs, rhs.regs, lhs.val);
    BinaryOk(rhs.regs, op, lhs.val, rhs.val, ret, n);
    CodeOkParts(lhs.instrs, rhs.instrs, ret, n);
    CodeOkParts(lhs.instrs + rhs.instrs, c.instrs, ret, n);
  }

  lemma {:induction false} OperandTypes(s: Scope, q: nat, e: Expr, ret: Ty, n: nat)
    requires EmitOperand(s, q, e).Code?
    ensures var c, t := EmitOperand(s, q, e), ValueTy(e, s.locals.Keys, s.sigs);
            && NoneEnds(c.instrs) && (CodeOk(c.instrs, ret, n) <==> Typed(e, s.locals.Keys, s.sigs))
            && TypeOf(c.val) == if t == I1 then I32 else t
    decreases e, 2
  {
    hide EmitExpr, CodeOk, NoneEnds;
    var v := EmitExpr(s, q, e);
    var l := EmitLoad(v.regs, v.val);
    ExprTypes(s, q, e, ret, n);
    LoadOk(v.regs, v.val, ret, n);
    CoerceOk(l.regs, l.val, ret, n);
    CodeOkParts(v.instrs, l.instrs, ret, n);
    CodeOkParts(v.instrs + l.instrs, EmitCoerce(l.regs, l.val).instrs, ret, n);
  }

  lemma {:induction false} CallTypes(s: Scope, q: nat, f: string, args: seq<Expr>, ret: Ty, n: nat)
    requires EmitExpr(s, q, Call(f, args)).Code?
    ensures TypesAs(EmitExpr(s, q, Call(f, args)), Call(f, args), s.locals.Keys, s.sigs, ret, n)
    decreases Call(f, args), 0
  {
    hide CodeOk, NoneEnds;
    var c := EmitArgs(s, q, args);
    var i := CallF(c.regs, f, s.sigs[f], c.vals);
    ArgsType(s, q, args, ret, n);
    OneOk(i, ret, n);
    CodeOkParts(c.instrs, [i], ret, n);
  }

  lemma {:induction false} ArgsType(s: Scope, q: nat, args: seq<Expr>, ret: Ty, n: nat)
    requires EmitArgs(s, q, args).Args?
    ensures var c := EmitArgs(s, q, args);
            && NoneEnds(c.instrs)
            && (CodeOk(c.instrs, ret, n) <==> forall k :: 0 <= k < |args| ==> Typed(args[k], s.locals.Keys, s.sigs))
            && (forall k :: 0 <= k < |args| ==>
                  (TypeOf(c.vals[k]) == I32 <==> IsInt(ValueTy(args[k], s.locals.Keys, s.sigs))))
    decreases args, 0
  {
    hide CodeOk, NoneEnds, EmitOperand;
    if args == [] {
      NothingOk(ret, n);
    } else {
      var v := EmitOperand(s, q, args[0]);
      var rest := EmitArgs(s, v.regs, args[1..]);
      OperandTypes(s, q, args[0], ret, n);
      ArgsType(s, v.regs, args[1..], ret, n);
      CodeOkParts(v.instrs, rest.instrs, ret, n);
      assert forall k :: 1 <= k < |args| ==> args[k] == args[1..][k - 1];
    }
  }

  /** A condition and its branch. */
  lemma ConditionTypes(s: Scope, q: nat, c: Expr, yes: nat, no: nat, ret: Ty, n: nat)
    requires EmitCondition(s, q, c, yes, no).Code? && yes < n && no < n
    ensures var code := EmitCondition(s, q, c, yes, no).instrs;
            && code != [] && EndsInTerminator(code) && NoneEnds(code[..|code| - 1])
            && (CodeOk(code, ret, n) <==>
                  Typed(c, s.locals.Keys, s.sigs) && ValueTy(c, s.locals.Keys, s.sigs) != Void)
  {
    hide EmitExpr, CodeOk, NoneEnds;
    var v := EmitExpr(s, q, c);
    var l := EmitLoad(v.regs, v.val);
    var test := ICmp(l.regs, INe, l.val, Const(TypeOf(l.val), 0));
    var branch := CondBr(Reg(l.regs, I1), yes, no);
    var all := v.instrs + l.instrs + [test];
    ExprTypes(s, q, c, ret, n);
    LoadOk(v.regs, v.val, ret, n);
    OneOk(test, ret, n);
    OneOk(branch, ret, n);
    CodeOkParts(v.instrs, l.instrs, ret, n);
    CodeOkParts(v.instrs + l.instrs, [test], ret, n);
    CodeOkParts(all, [branch], ret, n);
    assert EmitCondition(s, q, c, yes, no).instrs == all + [branch];
    assert (all + [branch])[..|all|] == all;
  }

  // ----- blocks -----

  /** Nothing to emit: a name, a literal, a declaration without a value. */
  predicate Silent(e: Expr) {
    match e
    case Lit(_) => true
    case Var(_) => true
    case Paren(i) => Silent(i)
    case Cast(i) => Silent(i)
    case _ => false
  }

  predicate SilentStmt(s: Stmt)
    decreases s
  {
    match s
    case Compound(body) => forall k :: 0 <= k < |body| ==> SilentStmt(body[k])
    case OtherStmt(children) => forall k :: 0 <= k < |children| ==> SilentStmt(children[k])
    case Decl(_, init) => init.None?
    case ExprStmt(e) => Silent(e)
    case _ => false
  }

  /** The block a statement starts in ends with a return of it. */
  predicate Ends(s: Stmt)
    decreases s
  {
    match s
    case Compound(body) => exists k :: 0 <= k < |body| && Ends(body[k])
    case OtherStmt(children) => exists k :: 0 <= k < |children| && Ends(children[k])
    case Return(_) => true
    case _ => false
  }

  /** Types are right, returns match the function, and nothing is emitted behind a return in its
      block. */
  predicate TypedStmt(s: Stmt, names: set<string>, sigs: Sigs, ret: Ty)
    decreases s, 1
  {
    match s
    case Compound(body) => TypedSeq(body, names, sigs, ret)
    case OtherStmt(children) => TypedSeq(children, names, sigs, ret)
    case Return(None) => ret == Void
    case Return(Some(e)) => Typed(e, names, sigs) && ret == I32 && IsInt(ValueTy(e, names, sigs))
    case Decl(x, init) =>
      init.Some? ==> Typed(init.value, names + {x}, sigs) && ValueTy(init.value, names + {x}, sigs) != Void
    case ExprStmt(e) => Typed(e, names, sigs)
    case If(c, t, els) =>
      && Typed(c, names, sigs) && ValueTy(c, names, sigs) != Void && TypedStmt(t, names, sigs, ret)
      && (els.Some? ==> TypedStmt(els.value, NamesAfter(t, names), sigs, ret))
    case While(c, body) =>
      Typed(c, names, sigs) && ValueTy(c, names, sigs) != Void && TypedStmt(body, names, sigs, ret)
  }

  predicate TypedSeq(ss: seq<Stmt>, names: set<string>, sigs: Sigs, ret: Ty)
    decreases ss, 0
  {
    ss == []
    || (TypedStmt(ss[0], names, sigs, ret)
        && if Ends(ss[0]) then forall k :: 1 <= k < |ss| ==> SilentStmt(ss[k])
           else TypedSeq(ss[1..], NamesAfter(ss[0], names), sigs, ret))
  }

  /** What can still become a block of the verifier's. */
  predicate Clean(b: Block, ret: Ty, n: nat) {
    CodeOk(b, ret, n) && (b != [] ==> NoneEnds(b[..|b| - 1]))
  }

  predicate AllClean(blocks: seq<Block>, ret: Ty, n: nat) {
    forall k :: 0 <= k < |blocks| ==> Clean(blocks[k], ret, n)
  }

  /** Appending code, which may end in a terminator, keeps a block clean exactly when the code is
      well typed and the block had not ended. */
  lemma AppendClean(b: Block, code: Block, ret: Ty, n: nat)
    requires code != [] && NoneEnds(code[..|code| - 1])
    ensures Clean(b + code, ret, n) <==> Clean(b, ret, n) && !EndsInTerminator(b) && CodeOk(code, ret, n)
    ensures EndsInTerminator(b + code) <==> EndsInTerminator(code)
  {
    hide CodeOk;
    CodeOkParts(b, code, ret, n);
    CodeOkParts(b, code[..|code| - 1], ret, n);
    assert (b + code)[..|b + code| - 1] == b + code[..|code| - 1];
    if b != [] { assert b == b[..|b| - 1] + [b[|b| - 1]]; }
  }

  /** From `a` to `b` every block that was left has been ended. */
  predicate Settles(a: Builder, b: Builder) {
    forall k :: 0 <= k < |b.blocks| ==>
      k == b.cur || (k < |a.blocks| && k != a.cur) || EndsInTerminator(b.blocks[k])
  }

  /** What emitting from `a` to `b` does to the blocks, for a statement that is silent, well typed,
      and ends its block, or not. */
  ghost predicate Lays(a: Builder, b: Builder, silent: bool, typed: bool, ends: bool, ret: Ty, n: nat) {
    && Extends(a, b) && Settles(a, b)
    && (silent ==> b.blocks == a.blocks && b.cur == a.cur)
    && (!silent ==> |b.blocks[a.cur]| > |Current(a)|)
    && (AllClean(b.blocks, ret, n) <==> AllClean(a.blocks, ret, n) && if Terminated(a) then silent else typed)
    && (AllClean(b.blocks, ret, n) ==> (Terminated(b) <==> Terminated(a) || ends))
  }

  /** Code appended to the current block. */
  lemma LaysCode(a: Builder, b: Builder, code: Block, typed: bool, ends: bool, ret: Ty, n: nat)
    requires b.blocks == Append(a, code).blocks && b.cur == a.cur && b.sigs == a.sigs
    requires code != [] ==> NoneEnds(code[..|code| - 1])
    requires typed <==> CodeOk(code, ret, n)
    requires ends <==> EndsInTerminator(code)
    ensures Lays(a, b, code == [], typed, ends, ret, n)
  {
    hide CodeOk, NoneEnds, Clean;
    if code == [] {
      assert Current(a) + code == Current(a) && b.blocks == a.blocks;
      NothingOk(ret, n);
    } else {
      AppendClean(Current(a), code, ret, n);
      assert b.blocks[a.cur] == Current(a) + code;
      OthersSame(a.blocks, b.blocks, a.cur, ret, n);
    }
  }

  lemma OthersSame(a: seq<Block>, b: seq<Block>, cur: nat, ret: Ty, n: nat)
    requires |a| == |b| && cur < |a| && forall k :: 0 <= k < |a| && k != cur ==> b[k] == a[k]
    requires Clean(b[cur], ret, n) ==> Clean(a[cur], ret, n)
    ensures AllClean(b, ret, n) <==> AllClean(a, ret, n) && Clean(b[cur], ret, n)
  {
    hide Clean;
    if AllClean(b, ret, n) {
      forall k | 0 <= k < |a| ensures Clean(a[k], ret, n) { assert Clean(b[k], ret, n); }
    }
  }

  lemma LaysThen(a: Builder, b: Builder, c: Builder, silent: bool, typed: bool, ends: bool, silent1: bool, typed1: bool,
                 ends1: bool, ret: Ty, n: nat)
    requires Lays(a, b, silent, typed, ends, ret, n) && Lays(b, c, silent1, typed1, ends1, ret, n)
    ensures Lays(a, c, silent && silent1, typed && (if ends then silent1 else typed1), ends || ends1, ret, n)
  {
    hide AllClean;
    ExtendsFrom(a, b, c);
  }

  lemma LaysNothing(a: Builder, ret: Ty, n: nat)
    ensures Lays(a, a, true, true, false, ret, n)
  {
    hide AllClean;
  }

  lemma {:induction false} SilentIsTyped(e: Expr, names: set<string>, sigs: Sigs)
    requires Silent(e)
    ensures Typed(e, names, sigs)
  {
    match e
    case Paren(i) => SilentIsTyped(i, names, sigs);
    case Cast(i) => SilentIsTyped(i, names, sigs);
    case _ =>
  }

  /** Only the silent expressions emit nothing. */
  lemma {:induction false} SilentCode(s: Scope, q: nat, e: Expr)
    requires EmitExpr(s, q, e).Code?
    ensures EmitExpr(s, q, e).instrs == [] <==> Silent(e)
  {
    match e
    case Paren(i) => SilentCode(s, q, i);
    case Cast(i) => SilentCode(s, q, i);
    case _ =>
  }

  // ----- statements -----

  lemma {:induction false} StmtLays(b: Builder, s: Stmt, ret: Ty, n: nat)
    requires EmitStmt(b, s).Ok? && |EmitStmt(b, s).b.blocks| <= n && (ret == I32 || ret == Void)
    ensures Lays(b, EmitStmt(b, s).b, SilentStmt(s), TypedStmt(s, b.locals.Keys, b.sigs, ret), Ends(s), ret, n)
    decreases s, 1
  {
    hide Lays;
    match s
    case Compound(body) => SeqLays(b, body, ret, n);
    case OtherStmt(children) => SeqLays(b, children, ret, n);
    case Return(value) => ReturnLays(b, value, ret, n);
    case Decl(x, init) => DeclLays(b, x, init, ret, n);
    case ExprStmt(e) => ExprLays(b, e, ret, n);
    case If(c, t, els) => IfLays(b, c, t, els, ret, n);
    case While(c, body) => WhileLays(b, c, body, ret, n);
  }

  lemma {:induction false} SeqLays(b: Builder, ss: seq<Stmt>, ret: Ty, n: nat)
    requires EmitSeq(b, ss).Ok? && |EmitSeq(b, ss).b.blocks| <= n && (ret == I32 || ret == Void)
    ensures Lays(b, EmitSeq(b, ss).b, forall k :: 0 <= k < |ss| ==> SilentStmt(ss[k]),
                 TypedSeq(ss, b.locals.Keys, b.sigs, ret), exists k :: 0 <= k < |ss| && Ends(ss[k]), ret, n)
    decreases ss, 0
  {
    hide Lays, EmitStmt, SilentStmt, Ends, TypedStmt, NamesAfter;
    if ss == [] {
      LaysNothing(b, ret, n);
    } else {
      var b1 := EmitStmt(b, ss[0]).b;
      StmtLays(b, ss[0], ret, n);
      StmtEmits(b, ss[0]);
      SeqLays(b1, ss[1..], ret, n);
      var rest := ss[1..];
      assert forall k :: 1 <= k < |ss| ==> ss[k] == rest[k - 1];
      assert forall k :: 0 <= k < |rest| ==> rest[k] == ss[k + 1];
      LaysThen(b, b1, EmitSeq(b, ss).b, SilentStmt(ss[0]), TypedStmt(ss[0], b.locals.Keys, b.sigs, ret), Ends(ss[0]),
               forall k :: 0 <= k < |rest| ==> SilentStmt(rest[k]), TypedSeq(rest, b1.locals.Keys, b1.sigs, ret),
               exists k :: 0 <= k < |rest| && Ends(rest[k]), ret, n);
    }
  }

  lemma ReturnLays(b: Builder, value: Option<Expr>, ret: Ty, n: nat)
    requires EmitReturn(b, value).Ok? && (ret == I32 || ret == Void)
    ensures Lays(b, EmitReturn(b, value).b, false, TypedStmt(Return(value), b.locals.Keys, b.sigs, ret), true, ret, n)
  {
    hide Lays, CodeOk, NoneEnds, EmitOperand;
    match value
    case None =>
      OneOk(RetVoid, ret, n);
      NothingOk(ret, n);
      assert [RetVoid][..0] == [];
      LaysCode(b, EmitReturn(b, value).b, [RetVoid], ret == Void, true, ret, n);
    case Some(e) =>
      var v := EmitOperand(ScopeOf(b), b.regs, e);
      var code := v.instrs + [Ret(v.val)];
      OperandTypes(ScopeOf(b), b.regs, e, ret, n);
      OneOk(Ret(v.val), ret, n);
      CodeOkParts(v.instrs, [Ret(v.val)], ret, n);
      assert code[..|code| - 1] == v.instrs;
      StmtMeaning.AppendTwice(b, v, [Ret(v.val)]);
      LaysCode(b, EmitReturn(b, value).b, code, TypedStmt(Return(value), b.locals.Keys, b.sigs, ret), true, ret, n);
  }

  lemma DeclLays(b: Builder, x: string, init: Option<Expr>, ret: Ty, n: nat)
    requires EmitDecl(b, x, init).Ok?
    ensures Lays(b, EmitDecl(b, x, init).b, init.None?, TypedStmt(Decl(x, init), b.locals.Keys, b.sigs, ret), false,
                 ret, n)
  {
    hide Lays, CodeOk, NoneEnds, EmitOperand;
    var b1 := Allocate(b, x);
    assert b1.locals.Keys == b.locals.Keys + {x};
    match init
    case None =>
      NothingOk(ret, n);
      assert Current(b) + [] == Current(b) && b.blocks[b.cur := Current(b)] == b.blocks;
      LaysCode(b, b1, [], true, false, ret, n);
    case Some(e) =>
      var v := EmitOperand(ScopeOf(b1), b1.regs, e);
      var store := Store(v.val, Slot(b.slots));
      var code := v.instrs + [store];
      OperandTypes(ScopeOf(b1), b1.regs, e, ret, n);
      OneOk(store, ret, n);
      CodeOkParts(v.instrs, [store], ret, n);
      assert code[..|code| - 1] == v.instrs;
      StmtMeaning.AppendTwice(b1, v, [store]);
      LaysCode(b, EmitDecl(b, x, init).b, code, TypedStmt(Decl(x, init), b.locals.Keys, b.sigs, ret), false, ret, n);
  }

  lemma ExprLays(b: Builder, e: Expr, ret: Ty, n: nat)
    requires EmitExpr(ScopeOf(b), b.regs, e).Code?
    ensures Lays(b, AppendCode(b, EmitExpr(ScopeOf(b), b.regs, e)), Silent(e), Typed(e, b.locals.Keys, b.sigs), false,
                 ret, n)
  {
    hide Lays, CodeOk;
    var v := EmitExpr(ScopeOf(b), b.regs, e);
    ExprTypes(ScopeOf(b), b.regs, e, ret, n);
    SilentCode(ScopeOf(b), b.regs, e);
    LaysCode(b, AppendCode(b, v), v.instrs, Typed(e, b.locals.Keys, b.sigs), false, ret, n);
  }

  /** From `a` to `b` every block that was worked on has been ended. */
  predicate Fills(a: Builder, b: Builder) {
    && Extends(a, b)
    && forall k :: 0 <= k < |b.blocks| ==> (k < |a.blocks| && k != a.cur) || EndsInTerminator(b.blocks[k])
  }

  lemma CloseFills(a: Builder, b: Builder, target: nat, ret: Ty, n: nat)
    requires Extends(a, b) && Settles(a, b) && target < n
    ensures Fills(a, Close(b, target))
    ensures AllClean(Close(b, target).blocks, ret, n) <==> AllClean(b.blocks, ret, n)
  {
    hide Clean;
    ExtendsFrom(a, b, Close(b, target));
    if !Terminated(b) {
      OneOk(Br(target), ret, n);
      NothingOk(ret, n);
      assert [Br(target)][..0] == [];
      AppendClean(Current(b), [Br(target)], ret, n);
      OthersSame(b.blocks, Close(b, target).blocks, b.cur, ret, n);
    }
  }

  lemma {:induction false} BranchLays(b: Builder, s: Stmt, target: nat, ret: Ty, n: nat)
    requires EmitBranch(b, s, target).Ok? && |EmitBranch(b, s, target).b.blocks| <= n && (ret == I32 || ret == Void)
    requires target < n && !Terminated(b)
    ensures Fills(b, EmitBranch(b, s, target).b)
    ensures AllClean(EmitBranch(b, s, target).b.blocks, ret, n)
            <==> AllClean(b.blocks, ret, n) && TypedStmt(s, b.locals.Keys, b.sigs, ret)
    decreases s, 2
  {
    hide EmitStmt, AllClean, TypedStmt, SilentStmt, Ends, Fills;
    StmtLays(b, s, ret, n);
    CloseFills(b, EmitStmt(b, s).b, target, ret, n);
  }

  /** Blocks that are still empty are clean. */
  lemma NewBlocksClean(b: Builder, ret: Ty, n: nat)
    ensures AllClean(NewBlocks(b).blocks, ret, n) <==> AllClean(b.blocks, ret, n)
  {
    hide Clean;
    var more := NewBlocks(b).blocks;
    EmptyIsClean(ret, n);
    assert forall k :: 0 <= k < |b.blocks| ==> more[k] == b.blocks[k];
    if AllClean(more, ret, n) {
      forall k | 0 <= k < |b.blocks| ensures Clean(b.blocks[k], ret, n) { assert Clean(more[k], ret, n); }
    }
  }

  lemma EmptyIsClean(ret: Ty, n: nat)
    ensures Clean([], ret, n)
  {
  }

  /** A block that is left for others with code that ends it. */
  lemma LeaveWith(b: Builder, code: Block, typed: bool, ret: Ty, n: nat)
    requires code != [] && NoneEnds(code[..|code| - 1]) && EndsInTerminator(code)
    requires typed <==> CodeOk(code, ret, n)
    ensures AllClean(Append(b, code).blocks, ret, n) <==> AllClean(b.blocks, ret, n) && !Terminated(b) && typed
  {
    hide Clean, CodeOk, NoneEnds;
    AppendClean(Current(b), code, ret, n);
    OthersSame(b.blocks, Append(b, code).blocks, b.cur, ret, n);
    if AllClean(b.blocks, ret, n) { assert Clean(b.blocks[b.cur], ret, n); }
  }

  lemma {:induction false} IfLays(b: Builder, c: Expr, t: Stmt, els: Option<Stmt>, ret: Ty, n: nat)
    requires EmitStmt(b, If(c, t, els)).Ok? && |EmitStmt(b, If(c, t, els)).b.blocks| <= n && (ret == I32 || ret == Void)
    ensures Lays(b, EmitStmt(b, If(c, t, els)).b, false, TypedStmt(If(c, t, els), b.locals.Keys, b.sigs, ret), false,
                 ret, n)
    decreases If(c, t, els), 0
  {
    hide EmitCondition, EmitStmt, EmitBranch, EmitElse, AllClean, CodeOk, NoneEnds, Typed, ValueTy, Fills, TypedStmt,
         Extends, Settles;
    var q := |b.blocks|;
    var b1, b2 := StmtMeaning.IfSplit(b, c, t, els);
    IfReaches(b, c, t, els, b1, b2);
    var code := EmitCondition(ScopeOf(b), b.regs, c, q, q + 1).instrs;
    var b4 := ElseParts(b, b2, q, els);
    GrowsTo(EnterBlock(b2, q + 1), b4);
    ConditionTypes(ScopeOf(b), b.regs, c, q, q + 1, ret, n);
    NewBlocksClean(b, ret, n);
    LeaveWith(NewBlocks(b), code, Typed(c, b.locals.Keys, b.sigs) && ValueTy(c, b.locals.Keys, b.sigs) != Void, ret, n);
    BranchLays(b1, t, q + 2, ret, n);
    BranchEmits(b1, t, q + 2);
    ElseLays(b, b2, b4, q, els, ret, n);
    IfJoins(b, code, b1, b2, b4);
    IfTyped(c, t, els, b.locals.Keys, b.sigs, ret);
  }

  lemma IfTyped(c: Expr, t: Stmt, els: Option<Stmt>, names: set<string>, sigs: Sigs, ret: Ty)
    ensures TypedStmt(If(c, t, els), names, sigs, ret) <==>
            && Typed(c, names, sigs) && ValueTy(c, names, sigs) != Void && TypedStmt(t, names, sigs, ret)
            && (els.Some? ==> TypedStmt(els.value, NamesAfter(t, names), sigs, ret))
  {
  }

  lemma IfReaches(b: Builder, c: Expr, t: Stmt, els: Option<Stmt>, b1: Builder, b2: Builder)
    requires StmtMeaning.IfParts(b, c, t, els, b1, b2)
    ensures Extends(b, b2) && |b.blocks| + 2 < |b2.blocks| && b2.sigs == b.sigs
  {
    hide EmitCondition, EmitBranch, EmitStmt, EmitElse;
    ExtendsMove(b, AppendCode(NewBlocks(b), EmitCondition(ScopeOf(b), b.regs, c, |b.blocks|, |b.blocks| + 1)),
                |b.blocks|);
    ExtendsFrom(b, b1, b2);
  }

  lemma GrowsTo(a: Builder, b: Builder)
    requires Extends(a, b)
    ensures |a.blocks| <= |b.blocks| && a.sigs == b.sigs
  {
  }

  lemma ElseParts(b: Builder, b2: Builder, q: nat, els: Option<Stmt>) returns (b4: Builder)
    requires Extends(b, b2) && |b.blocks| <= q && q + 2 < |b2.blocks| && EmitElse(b, b2, q, els).Ok?
    ensures Extends(EnterBlock(b2, q + 1), b4) && q + 2 < |b4.blocks|
    ensures EmitElse(b, b2, q, els).b == EnterBlock(b4, q + 2)
    ensures b4 == if els.None? then Close(EnterBlock(b2, q + 1), q + 2)
                  else EmitBranch(EnterBlock(b2, q + 1), els.value, q + 2).b
    ensures els.Some? ==> EmitBranch(EnterBlock(b2, q + 1), els.value, q + 2).Ok?
  {
    hide EmitBranch;
    b4 := if els.None? then Close(EnterBlock(b2, q + 1), q + 2)
          else EmitBranch(EnterBlock(b2, q + 1), els.value, q + 2).b;
  }

  lemma {:induction false} ElseLays(b: Builder, b2: Builder, b4: Builder, q: nat, els: Option<Stmt>, ret: Ty, n: nat)
    requires q + 2 < |b2.blocks| && |b4.blocks| <= n && (ret == I32 || ret == Void) && b2.blocks[q + 1] == []
    requires els.None? ==> b4 == Close(EnterBlock(b2, q + 1), q + 2) && |b2.blocks| <= n
    requires els.Some? ==> EmitBranch(EnterBlock(b2, q + 1), els.value, q + 2) == Ok(b4) && q + 2 < n
    ensures Fills(EnterBlock(b2, q + 1), b4)
    ensures AllClean(b4.blocks, ret, n) <==>
            AllClean(b2.blocks, ret, n) && (els.Some? ==> TypedStmt(els.value, b2.locals.Keys, b2.sigs, ret))
    decreases els, 3
  {
    hide EmitBranch, AllClean, Fills, TypedStmt;
    var b3 := EnterBlock(b2, q + 1);
    if els.None? {
      CloseFills(b3, b3, q + 2, ret, n);
    } else {
      BranchLays(b3, els.value, q + 2, ret, n);
    }
  }

  /** All that an `if` worked on has been ended, except for the block where it ends itself. */
  lemma IfJoins(b: Builder, code: Block, b1: Builder, b2: Builder, b4: Builder)
    requires var q := |b.blocks|;
             && b1.blocks == Append(NewBlocks(b), code).blocks && b1.cur == q && EndsInTerminator(code)
             && Fills(b1, b2) && q + 2 < |b2.blocks| && b2.blocks[q + 2] == []
             && Fills(EnterBlock(b2, q + 1), b4) && q + 2 < |b4.blocks|
    ensures var final := EnterBlock(b4, |b.blocks| + 2);
            Settles(b, final) && Current(final) == [] && |final.blocks[b.cur]| > |Current(b)|
  {
    var q := |b.blocks|;
    var final := EnterBlock(b4, q + 2);
    assert final.blocks[b.cur] == b2.blocks[b.cur] == b1.blocks[b.cur] == Current(b) + code;
    assert final.blocks[q + 2] == b2.blocks[q + 2];
  }

  lemma {:induction false} WhileLays(b: Builder, c: Expr, body: Stmt, ret: Ty, n: nat)
    requires EmitStmt(b, While(c, body)).Ok? && |EmitStmt(b, While(c, body)).b.blocks| <= n
    requires ret == I32 || ret == Void
    ensures Lays(b, EmitStmt(b, While(c, body)).b, false, TypedStmt(While(c, body), b.locals.Keys, b.sigs, ret), false,
                 ret, n)
    decreases While(c, body), 0
  {
    hide EmitCondition, EmitStmt, EmitBranch, AllClean, CodeOk, NoneEnds, Typed, ValueTy, Fills, TypedStmt, Extends,
         Settles;
    var q := |b.blocks|;
    var b1, b2, b3 := StmtMeaning.LoopSplit(b, c, body);
    var code := EmitCondition(ScopeOf(b), b.regs, c, q + 1, q + 2).instrs;
    GrowsTo(b2, b3);
    ConditionTypes(ScopeOf(b), b.regs, c, q + 1, q + 2, ret, n);
    JumpOk(q, ret, n);
    NewBlocksClean(b, ret, n);
    LeaveWith(NewBlocks(b), [Br(q)], true, ret, n);
    LeaveWith(b1, code, Typed(c, b.locals.Keys, b.sigs) && ValueTy(c, b.locals.Keys, b.sigs) != Void, ret, n);
    BranchLays(b2, body, q, ret, n);
    LoopJoins(b, code, b1, b2, b3);
    WhileTyped(c, body, b.locals.Keys, b.sigs, ret);
  }

  lemma WhileTyped(c: Expr, body: Stmt, names: set<string>, sigs: Sigs, ret: Ty)
    ensures TypedStmt(While(c, body), names, sigs, ret) <==>
            Typed(c, names, sigs) && ValueTy(c, names, sigs) != Void && TypedStmt(body, names, sigs, ret)
  {
  }

  lemma JumpOk(target: nat, ret: Ty, n: nat)
    requires target < n
    ensures CodeOk([Br(target)], ret, n) && NoneEnds([Br(target)][..0]) && EndsInTerminator([Br(target)])
  {
  }

  lemma LoopJoins(b: Builder, code: Block, b1: Builder, b2: Builder, b3: Builder)
    requires var q := |b.blocks|;
             && b1 == LoopHead(b) && EndsInTerminator(code)
             && b2.blocks == Append(b1, code).blocks && b2.cur == q + 1
             && Fills(b2, b3) && q + 2 < |b3.blocks| && b3.blocks[q + 2] == []
    ensures var final := EnterBlock(b3, |b.blocks| + 2);
            Settles(b, final) && Current(final) == [] && |final.blocks[b.cur]| > |Current(b)|
  {
    var q := |b.blocks|;
    assert b3.blocks[b.cur] == b2.blocks[b.cur] == b1.blocks[b.cur] == Current(b) + [Br(q)];
    assert b3.blocks[q] == b2.blocks[q] == b1.blocks[q] + code;
  }

  // ----- definitions -----

  function Names(params: seq<string>): set<string> { set x | x in params }

  /** What the converter accepts of a definition, given the prototypes known at it. */
  predicate Accepted(sigs: Sigs, f: Function)
    requires f.body.Some?
  {
    && SupportedStmt(f.body.value, Names(f.params), sigs)
    && TypedStmt(f.body.value, Names(f.params), sigs, RetTy(f.ret))
  }

  lemma {:induction false} PrologueClean(sigs: Sigs, params: seq<string>, k: nat, ret: Ty, n: nat)
    requires k <= |params|
    ensures var b := Prologue(sigs, params, k);
            && CodeOk(Current(b), ret, n) && NoneEnds(Current(b)) && b.locals.Keys == Names(params[..k])
  {
    if k == 0 {
      NothingOk(ret, n);
    } else {
      PrologueClean(sigs, params, k - 1, ret, n);
      var b := Prologue(sigs, params, k - 1);
      var store := Store(Reg(k - 1, I32), Slot(k - 1));
      OneOk(store, ret, n);
      CodeOkParts(Current(b), [store], ret, n);
      assert params[..k] == params[..k - 1] + [params[k - 1]];
    }
  }

  /** Whether there is code for a definition. */
  lemma DefinitionEmits(sigs: Sigs, f: Function)
    requires f.body.Some?
    ensures EmitDefinition(sigs, f).Ok? <==> SupportedStmt(f.body.value, Names(f.params), sigs)
  {
    PrologueClean(sigs, f.params, |f.params|, Void, 0);
    assert f.params[..|f.params|] == f.params;
    StmtEmits(Prologue(sigs, f.params, |f.params|), f.body.value);
  }

  /** And whether the verifier passes it: together, exactly the accepted definitions become part of
      a module. */
  lemma AcceptedExactly(sigs: Sigs, f: Function)
    requires f.body.Some?
    ensures Accepted(sigs, f) <==>
            EmitDefinition(sigs, f).Ok? && FunctionOk(EmitDefinition(sigs, f).b.blocks, RetTy(f.ret))
  {
    hide EmitStmt, SupportedStmt, TypedStmt, Ends, SilentStmt, CodeOk, NoneEnds, InstrOk, AllClean, FunctionOk;
    DefinitionEmits(sigs, f);
    var b, ret := Prologue(sigs, f.params, |f.params|), RetTy(f.ret);
    if EmitDefinition(sigs, f).Ok? {
      var b1 := EmitStmt(b, f.body.value).b;
      var n := |b1.blocks|;
      PrologueClean(sigs, f.params, |f.params|, ret, n);
      assert f.params[..|f.params|] == f.params;
      StmtLays(b, f.body.value, ret, n);
      OpenIsClean(b, ret, n);
      FinishClean(b1, f.ret, n);
      FinishedIsOk(b, b1, f.ret);
    }
  }

  lemma OpenIsClean(b: Builder, ret: Ty, n: nat)
    requires |b.blocks| == 1 && CodeOk(Current(b), ret, n) && NoneEnds(Current(b))
    ensures AllClean(b.blocks, ret, n) && !Terminated(b)
  {
    hide CodeOk;
  }

  lemma FinishClean(b: Builder, ret: CType, n: nat)
    ensures AllClean(Finish(b, ret).blocks, RetTy(ret), n) <==> AllClean(b.blocks, RetTy(ret), n)
    ensures Terminated(Finish(b, ret))
  {
    hide Clean;
    if !Terminated(b) {
      var i := if ret == CVoid then RetVoid else Ret(Const(I32, 0));
      OneOk(i, RetTy(ret), n);
      NothingOk(RetTy(ret), n);
      assert [i][..0] == [];
      AppendClean(Current(b), [i], RetTy(ret), n);
      OthersSame(b.blocks, Finish(b, ret).blocks, b.cur, RetTy(ret), n);
    }
  }

  /** With every block ended, clean blocks are what the verifier wants. */
  lemma FinishedIsOk(a: Builder, b: Builder, ret: CType)
    requires |a.blocks| == 1 && Settles(a, b) && Terminated(Finish(b, ret))
    ensures var blocks := Finish(b, ret).blocks;
            FunctionOk(blocks, RetTy(ret)) <==> AllClean(blocks, RetTy(ret), |b.blocks|)
  {
    hide InstrOk;
    var blocks, n := Finish(b, ret).blocks, |b.blocks|;
    forall k | 0 <= k < n ensures EndsInTerminator(blocks[k]) { }
    forall b | b in blocks ensures BlockOk(b, RetTy(ret), n) <==> Clean(b, RetTy(ret), n) {
      BlockOkIsClean(b, RetTy(ret), n);
    }
  }

  lemma BlockOkIsClean(b: Block, ret: Ty, n: nat)
    requires EndsInTerminator(b)
    ensures BlockOk(b, ret, n) <==> Clean(b, ret, n)
  {
    hide InstrOk;
    var init := b[..|b| - 1];
    if BlockOk(b, ret, n) {
      forall i | 0 <= i < |init| ensures !init[i].IsTerminator() { assert !b[i].IsTerminator(); }
    }
    if Clean(b, ret, n) {
      forall i | 0 <= i < |init| ensures !b[i].IsTerminator() { assert !init[i].IsTerminator(); }
    }
  }
}
