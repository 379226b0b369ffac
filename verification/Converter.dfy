/** The converter itself: a walk over the syntax tree that appends to the function under
    construction through an insert point it moves about. */
module Converter {
  import opened Wrappers
  import opened CSource
  import opened LlvmIr
  import opened Emission
  import Acceptance

  /** A definition of the module, as emitted. */
  datatype IrFunction = IrFunction(ret: Ty, blocks: seq<Block>)

  function SigOf(f: Function): Sig { Sig(|f.params|, RetTy(f.ret)) }

  /** Prototypes known once `decls` have been walked; a later one does not replace an
      earlier one. */
  function SigsAfter(decls: seq<Function>): Sigs {
    if decls == [] then map[]
    else
      var before := SigsAfter(decls[..|decls| - 1]);
      var f := decls[|decls| - 1];
      if f.name in before then before else before[f.name := SigOf(f)]
  }

  /** A name has the prototype of the first declaration of it. */
  lemma {:induction false} SigsAreFirst(decls: seq<Function>, name: string)
    ensures name in SigsAfter(decls) <==> exists k :: 0 <= k < |decls| && decls[k].name == name
    ensures forall k :: 0 <= k < |decls| && decls[k].name == name
                        && (forall j :: 0 <= j < k ==> decls[j].name != name) ==>
              name in SigsAfter(decls)
              && SigsAfter(decls)[name] == Sig(|decls[k].params|, if decls[k].ret == CVoid then Void else I32)
    decreases |decls|
  {
    if decls != [] {
      var init := decls[..|decls| - 1];
      SigsAreFirst(init, name);
      forall k | 0 <= k < |init| ensures init[k] == decls[k] { }
    }
  }

  /** Every definition is accepted, given the prototypes that are known when it is met. */
  ghost predicate AllAccepted(decls: seq<Function>) {
    forall k :: 0 <= k < |decls| && decls[k].body.Some? ==> AcceptedAt(decls, k)
  }

  predicate AcceptedAt(decls: seq<Function>, k: nat)
    requires k < |decls| && decls[k].body.Some?
  {
    Acceptance.Accepted(SigsAfter(decls[..k + 1]), decls[k])
  }

  /** No name is defined twice; the front end has rejected a unit that does so. */
  ghost predicate DefinedOnce(decls: seq<Function>) {
    forall i, j :: 0 <= i < j < |decls| && decls[i].body.Some? && decls[j].body.Some? ==> decls[i].name != decls[j].name
  }

  /** The module holds exactly the definitions, each as emitted, and each passes the verifier. */
  ghost predicate ModuleOf(ir: map<string, IrFunction>, decls: seq<Function>) {
    && (forall k :: 0 <= k < |decls| && decls[k].body.Some? ==>
          Has(ir, decls, k) && FunctionOk(ir[decls[k].name].blocks, RetTy(decls[k].ret)))
    && forall n :: n in ir ==> Defined(decls, n)
  }

  ghost predicate Defined(decls: seq<Function>, name: string) {
    exists k :: 0 <= k < |decls| && decls[k].name == name && decls[k].body.Some?
  }

  /** What the k-th declaration, a definition, is emitted as. */
  function DefinitionAt(decls: seq<Function>, k: nat): Emitted
    requires k < |decls| && decls[k].body.Some?
  {
    EmitDefinition(SigsAfter(decls[..k + 1]), decls[k])
  }

  class ClangToIRConverter {
    // the module
    var sigs: Sigs
    var bodies: map<string, IrFunction>
    // the function under construction
    var blocks: seq<Block>
    var cur: nat
    var locals: map<string, nat>
    var slots: nat
    var regs: nat
    // empty until something could not be emitted
    var lastError: string

    ghost predicate Valid()
      reads this
    {
      cur < |blocks|
    }

    ghost function Built(): Builder
      requires Valid()
      reads this
    {
      BuilderState(sigs, blocks, cur, locals, slots, regs)
    }

    /** What a call that emits the code `c` from builder `b` promises. */
    ghost predicate Added(b: Builder, c: Code, v: Option<Val>)
      reads this
    {
      && Valid()
      && match c
         case Failed(message) => v.None? && lastError == message != ""
         case Code(_, _, val) => v == Some(val) && lastError == "" && Built() == AppendCode(b, c)
    }

    /** What a call that emits a statement promises. */
    ghost predicate Became(r: Emitted)
      reads this
    {
      && Valid()
      && match r
         case Error(message) => lastError == message != ""
         case Ok(b) => lastError == "" && Built() == b
    }

    constructor ()
      ensures Valid() && lastError == "" && sigs == map[] && bodies == map[]
    {
      sigs, bodies, blocks, cur, locals, slots, regs, lastError := map[], map[], [[]], 0, map[], 0, 0, "";
    }

    // ----- the insert point -----

    method Insert(i: Instr)
      requires Valid()
      modifies this`blocks
      ensures Valid() && Built() == Append(old(Built()), [i])
    {
      blocks := blocks[cur := blocks[cur] + [i]];
    }

    /** Insert an instruction that defines the next register. */
    method Define(i: Instr, t: Ty) returns (v: Val)
      requires Valid()
      modifies this`blocks, this`regs
      ensures Valid() && v == Reg(old(regs), t)
      ensures Built() == AppendCode(old(Built()), Code([i], old(regs) + 1, v))
    {
      v := Reg(regs, t);
      Insert(i);
      regs := regs + 1;
    }

    // ----- values -----

    method LoadIfAlloca(v: Val) returns (r: Val)
      requires Valid()
      modifies this`blocks, this`regs
      ensures Valid() && r == EmitLoad(old(regs), v).val
      ensures Built() == AppendCode(old(Built()), EmitLoad(old(regs), v))
    {
      r := v;
      if v.Slot? {
        r := Define(Load(regs, v), I32);
      } else {
        NothingAdded(Built());
      }
    }

    method CoerceToInt(v: Val) returns (r: Val)
      requires Valid()
      modifies this`blocks, this`regs
      ensures Valid() && r == EmitCoerce(old(regs), v).val
      ensures Built() == AppendCode(old(Built()), EmitCoerce(old(regs), v))
    {
      r := v;
      if TypeOf(v) == I1 {
        r := Define(ZExt(regs, v), I32);
      } else {
        NothingAdded(Built());
      }
    }

    method ZExtTo(v: Val, t: Ty) returns (r: Val)
      requires Valid()
      modifies this`blocks, this`regs
      ensures Valid() && r == EmitToType(old(regs), v, t).val
      ensures Built() == AppendCode(old(Built()), EmitToType(old(regs), v, t))
    {
      r := v;
      if t != I1 {
        r := Define(ZExt(regs, v), t);
      } else {
        NothingAdded(Built());
      }
    }

    // ----- expressions -----

    method EmitExpr(e: Expr) returns (v: Option<Val>)
      requires Valid()
      modifies this`blocks, this`regs, this`lastError
      ensures old(lastError) != "" ==> v.None? && unchanged(this)
      ensures old(lastError) == "" ==> Added(old(Built()), Emission.EmitExpr(old(ScopeOf(Built())), old(regs), e), v)
      decreases e, 1
    {
      if lastError != "" { return None; }
      match e
      case Bin(op, l, r) => v := EmitBinaryOperator(op, l, r);
      case Call(f, args) => v := EmitCallExpr(f, args);
      case Lit(n) =>
        NothingAdded(Built());
        v := Some(Const(I32, n));
      case Var(x) => v := EmitDeclRefExpr(x);
      case Un(op, i) => v := EmitUnaryOperator(op, i);
      case Paren(i) => v := EmitExpr(i);
      case Cast(i) => v := EmitExpr(i);
      case OtherExpr =>
        lastError := BAD_EXPR;
        v := None;
    }

    method EmitDeclRefExpr(x: string) returns (v: Option<Val>)
      requires Valid() && lastError == ""
      modifies this`lastError
      ensures Added(old(Built()), Emission.EmitExpr(old(ScopeOf(Built())), old(regs), Var(x)), v)
    {
      NothingAdded(Built());
      if x in locals { return Some(Slot(locals[x])); }
      if x in sigs { return Some(FuncRef(x)); }
      lastError := BAD_NAME + x;
      v := None;
    }

    method EmitBinaryOperator(op: BinOp, l: Expr, r: Expr) returns (v: Option<Val>)
      requires Valid() && lastError == ""
      modifies this`blocks, this`regs, this`lastError
      ensures Added(old(Built()), Emission.EmitExpr(old(ScopeOf(Built())), old(regs), Bin(op, l, r)), v)
      decreases Bin(op, l, r), 0
    {
      hide Emission.EmitExpr, EmitBinary, Append;
      ghost var b, sc := Built(), ScopeOf(Built());
      BinaryCode(sc, regs, op, l, r);
      ghost var c1 := Emission.EmitExpr(sc, regs, l);
      var lhs := EmitExpr(l);
      ghost var c2 := if lhs.Some? then Emission.EmitExpr(sc, regs, r) else c1;
      var rhs := EmitExpr(r);
      if lhs.None? || rhs.None? {
        lastError := NO_OPERANDS;
        return None;
      }
      ghost var c3 := EmitBinary(regs, op, lhs.value, rhs.value);
      v := CombineOperands(op, lhs.value, rhs.value);
      JoinThree(b, c1, c2, c3);
    }

    /** The operator itself, once both operands have been emitted. */
    method CombineOperands(op: BinOp, lhs: Val, rhs: Val) returns (v: Option<Val>)
      requires Valid() && lastError == ""
      modifies this`blocks, this`regs, this`lastError
      ensures Added(old(Built()), EmitBinary(old(regs), op, lhs, rhs), v)
    {
      hide Append, EmitOperator;
      ghost var b, q := Built(), regs;
      if op == Assign {
        v := EmitAssignment(lhs, rhs);
        return;
      }
      if op == OtherBin {
        OperatorCode(op);
        lastError := BAD_BINARY;
        return None;
      }
      OperatorCode(op);
      var l := LoadIfAlloca(lhs);
      ghost var c1, q1 := EmitLoad(q, lhs), regs;
      var r := LoadIfAlloca(rhs);
      ghost var c2, c3 := EmitLoad(q1, rhs), EmitOperator(regs, op, l, r);
      var res := EmitLoadedOperator(op, l, r);
      JoinThree(b, c1, c2, c3);
      v := Some(res);
    }

    method EmitAssignment(lhs: Val, rhs: Val) returns (v: Option<Val>)
      requires Valid() && lastError == ""
      modifies this`blocks, this`regs
      ensures Added(old(Built()), EmitBinary(old(regs), Assign, lhs, rhs), v)
    {
      ghost var b, q := Built(), regs;
      var loaded := LoadIfAlloca(rhs);
      Insert(Store(loaded, lhs));
      AppendMore(b, EmitLoad(q, rhs), [Store(loaded, lhs)]);
      v := Some(loaded);
    }

    method EmitLoadedOperator(op: BinOp, l: Val, r: Val) returns (v: Val)
      requires Valid() && op != Assign && op != OtherBin
      modifies this`blocks, this`regs
      ensures Valid() && v == EmitOperator(old(regs), op, l, r).val
      ensures Built() == AppendCode(old(Built()), EmitOperator(old(regs), op, l, r))
    {
      match op
      case Add => v := Define(Arith(regs, IAdd, l, r), TypeOf(l));
      case Sub => v := Define(Arith(regs, ISub, l, r), TypeOf(l));
      case Mul => v := Define(Arith(regs, IMul, l, r), TypeOf(l));
      case Div => v := Define(Arith(regs, ISDiv, l, r), TypeOf(l));
      case Rem => v := Define(Arith(regs, ISRem, l, r), TypeOf(l));
      case LT => v := Define(ICmp(regs, ISlt, l, r), I1);
      case GT => v := Define(ICmp(regs, ISgt, l, r), I1);
      case LE => v := Define(ICmp(regs, ISle, l, r), I1);
      case GE => v := Define(ICmp(regs, ISge, l, r), I1);
      case EQ => v := Define(ICmp(regs, IEq, l, r), I1);
      case NE => v := Define(ICmp(regs, INe, l, r), I1);
      case LAnd => v := EmitTruthOperator(LAnd, l, r);
      case LOr => v := EmitTruthOperator(LOr, l, r);
    }

    method EmitTruthOperator(op: BinOp, l: Val, r: Val) returns (v: Val)
      requires Valid() && (op == LAnd || op == LOr)
      modifies this`blocks, this`regs
      ensures Valid() && v == EmitLogical(old(regs), op, l, r).val
      ensures Built() == AppendCode(old(Built()), EmitLogical(old(regs), op, l, r))
    {
      hide Append;
      ghost var b, q := Built(), regs;
      var zero := Const(TypeOf(l), 0);
      ghost var i, j := ICmp(q, INe, l, zero), ICmp(q + 1, INe, r, zero);
      var lt := Define(ICmp(regs, INe, l, zero), I1);
      var rt := Define(ICmp(regs, INe, r, zero), I1);
      AppendJoin(b, Code([i], q + 1, lt), Code([j], q + 2, rt));
      var comb := Define(Arith(regs, if op == LAnd then IAnd else IOr, lt, rt), I1);
      ghost var k := Arith(q + 2, if op == LAnd then IAnd else IOr, lt, rt);
      AppendJoin(b, Code([i] + [j], q + 2, rt), Code([k], q + 3, comb));
      assert [i] + [j] + [k] == [i, j, k];
      v := ZExtTo(comb, TypeOf(l));
      AppendJoin(b, Code([i, j, k], q + 3, comb), EmitToType(q + 3, comb, TypeOf(l)));
    }

    method EmitUnaryOperator(op: UnOp, i: Expr) returns (v: Option<Val>)
      requires Valid() && lastError == ""
      modifies this`blocks, this`regs, this`lastError
      ensures Added(old(Built()), Emission.EmitExpr(old(ScopeOf(Built())), old(regs), Un(op, i)), v)
      decreases Un(op, i), 0
    {
      hide Emission.EmitExpr, EmitUnary, Append;
      ghost var b, sc := Built(), ScopeOf(Built());
      UnaryCode(sc, regs, op, i);
      ghost var c1 := Emission.EmitExpr(sc, regs, i);
      var operand := EmitExpr(i);
      if operand.None? {
        lastError := NO_OPERAND;
        return None;
      }
      ghost var c2 := EmitLoad(regs, operand.value);
      var x := LoadIfAlloca(operand.value);
      ghost var c3 := EmitUnary(regs, op, x);
      v := ApplyUnary(op, x);
      JoinThree(b, c1, c2, c3);
    }

    /** The operator itself, on a loaded operand. */
    method ApplyUnary(op: UnOp, x: Val) returns (v: Option<Val>)
      requires Valid() && lastError == ""
      modifies this`blocks, this`regs, this`lastError
      ensures Added(old(Built()), EmitUnary(old(regs), op, x), v)
    {
      match op
      case Minus =>
        var r := Define(Arith(regs, ISub, Const(TypeOf(x), 0), x), TypeOf(x));
        v := Some(r);
      case LNot =>
        var r := EmitNot(x);
        v := Some(r);
      case OtherUn =>
        lastError := BAD_UNARY;
        v := None;
    }

    method EmitNot(x: Val) returns (v: Val)
      requires Valid()
      modifies this`blocks, this`regs
      ensures Valid() && v == EmitUnary(old(regs), LNot, x).val
      ensures Built() == AppendCode(old(Built()), EmitUnary(old(regs), LNot, x))
    {
      ghost var b, q := Built(), regs;
      var zero := Const(TypeOf(x), 0);
      var eq := Define(ICmp(regs, IEq, x, zero), I1);
      v := ZExtTo(eq, TypeOf(x));
      AppendJoin(b, Code([ICmp(q, IEq, x, zero)], q + 1, eq), EmitToType(q + 1, eq, TypeOf(x)));
    }

    /** A value for a consumer that needs an `int`. */
    method EmitIntOperand(e: Expr) returns (v: Option<Val>)
      requires Valid() && lastError == ""
      modifies this`blocks, this`regs, this`lastError
      ensures Added(old(Built()), EmitOperand(old(ScopeOf(Built())), old(regs), e), v)
      decreases e, 2
    {
      ghost var b := Built();
      ghost var c1 := Emission.EmitExpr(ScopeOf(b), regs, e);
      v := EmitExpr(e);
      if v.None? { return; }
      ghost var c2 := EmitLoad(regs, v.value);
      var loaded := LoadIfAlloca(v.value);
      AppendJoin(b, c1, c2);
      ghost var c3 := EmitCoerce(regs, loaded);
      var coerced := CoerceToInt(loaded);
      AppendJoin(b, Join(c1, c2), c3);
      v := Some(coerced);
    }

    method EmitCallExpr(f: string, args: seq<Expr>) returns (v: Option<Val>)
      requires Valid() && lastError == ""
      modifies this`blocks, this`regs, this`lastError
      ensures Added(old(Built()), Emission.EmitExpr(old(ScopeOf(Built())), old(regs), Call(f, args)), v)
      decreases Call(f, args), 0
    {
      if f !in sigs {
        lastError := BAD_CALLEE;
        return None;
      }
      ghost var b, sc, q := Built(), ScopeOf(Built()), regs;
      var emitted := EmitArguments(args);
      if emitted.None? { return None; }
      var vals := emitted.value;
      if |vals| != sigs[f].arity {
        lastError := BAD_ARITY + f;
        return None;
      }
      ghost var i, c := CallF(regs, f, sigs[f], vals), Code(EmitArgs(sc, q, args).instrs, regs, Const(I32, 0));
      assert Built() == AppendCode(b, c);
      var r := Define(CallF(regs, f, sigs[f], vals), sigs[f].ret);
      AppendJoin(b, c, Code([i], c.regs + 1, r));
      v := Some(r);
    }

    /** The arguments of a call, left to right. */
    method EmitArguments(args: seq<Expr>) returns (emitted: Option<seq<Val>>)
      requires Valid() && lastError == ""
      modifies this`blocks, this`regs, this`lastError
      ensures Valid()
      ensures match EmitArgs(old(ScopeOf(Built())), old(regs), args)
              case ArgsFailed(message) => emitted.None? && lastError == message != ""
              case Args(instrs, q, vs) =>
                emitted == Some(vs) && lastError == ""
                && Built() == AppendCode(old(Built()), Code(instrs, q, Const(I32, 0)))
      decreases args, 0
    {
      hide EmitOperand, Append;
      ghost var b, sc, q, any := Built(), ScopeOf(Built()), regs, Const(I32, 0);
      var vals: seq<Val> := [];
      var k := 0;
      ghost var done: Block := [];
      NothingAdded(b);
      while k < |args|
        invariant 0 <= k <= |args| && |vals| == k && Valid() && lastError == ""
        invariant ScopeOf(Built()) == sc && sigs == old(sigs) && bodies == old(bodies)
        invariant q <= regs && Built() == AppendCode(b, Code(done, regs, any))
        invariant EmitArgs(sc, q, args) == Prepend(done, vals, EmitArgs(sc, regs, args[k..]))
      {
        ghost var q1, rest := regs, args[k..];
        assert rest[0] == args[k] && rest[1..] == args[k + 1..];
        ghost var c := EmitOperand(sc, q1, args[k]);
        var arg := EmitIntOperand(args[k]);
        if arg.None? { return None; }
        AppendJoin(b, Code(done, q1, any), c);
        PrependTwice(done, vals, c.instrs, c.val, EmitArgs(sc, regs, args[k + 1..]));
        done := done + c.instrs;
        vals := vals + [arg.value];
        k := k + 1;
      }
      assert args[k..] == [];
      assert EmitArgs(sc, regs, args[k..]) == Args([], regs, []);
      assert done + [] == done && vals + [] == vals;
      emitted := Some(vals);
    }

    // ----- statements -----

    method EmitStmt(s: Stmt)
      requires Valid()
      modifies this`blocks, this`cur, this`locals, this`slots, this`regs, this`lastError
      ensures old(lastError) != "" ==> unchanged(this)
      ensures old(lastError) == "" ==> Became(Emission.EmitStmt(old(Built()), s))
      decreases s, 2
    {
      if lastError != "" { return; }
      match s
      case Compound(body) => EmitBody(body);
      case Return(value) => EmitReturnStmt(value);
      case Decl(x, init) => EmitVarDecl(x, init);
      case If(c, t, els) => EmitIfStmt(c, t, els);
      case While(c, body) => EmitWhileStmt(c, body);
      case ExprStmt(e) => var _ := EmitExpr(e);
      case OtherStmt(children) => EmitBody(children);
    }

    method EmitBody(body: seq<Stmt>)
      requires Valid() && lastError == ""
      modifies this`blocks, this`cur, this`locals, this`slots, this`regs, this`lastError
      ensures Became(EmitSeq(old(Built()), body))
      decreases body, 0
    {
      ghost var all := EmitSeq(Built(), body);
      var k := 0;
      while k < |body|
        invariant 0 <= k <= |body| && Valid() && sigs == old(sigs)
        invariant lastError == "" ==> all == EmitSeq(Built(), body[k..])
        invariant lastError != "" ==> all == Error(lastError)
      {
        ghost var rest := body[k..];
        assert rest[0] == body[k] && rest[1..] == body[k + 1..];
        EmitStmt(body[k]);
        k := k + 1;
      }
      assert body[k..] == [];
    }

    method EmitReturnStmt(value: Option<Expr>)
      requires Valid() && lastError == ""
      modifies this`blocks, this`regs, this`lastError
      ensures Became(EmitReturn(old(Built()), value))
    {
      match value
      case None => Insert(RetVoid);
      case Some(e) =>
        var v := EmitIntOperand(e);
        if v.Some? { Insert(Ret(v.value)); }
    }

    method EmitVarDecl(x: string, init: Option<Expr>)
      requires Valid() && lastError == ""
      modifies this`blocks, this`locals, this`slots, this`regs, this`lastError
      ensures Became(EmitDecl(old(Built()), x, init))
    {
      var slot := slots;
      slots := slots + 1;
      locals := locals[x := slot];
      if init.Some? {
        var v := EmitIntOperand(init.value);
        if v.Some? { Insert(Store(v.value, Slot(slot))); }
      }
    }

    /** Emit a condition and the branch on it. */
    method EmitBranchOn(c: Expr, yes: nat, no: nat) returns (ok: bool)
      requires Valid() && lastError == ""
      modifies this`blocks, this`regs, this`lastError
      ensures Valid()
      ensures match EmitCondition(old(ScopeOf(Built())), old(regs), c, yes, no)
              case Failed(message) => !ok && lastError == message != ""
              case Code(i, q, v) => ok && lastError == "" && Built() == AppendCode(old(Built()), Code(i, q, v))
    {
      ghost var b := Built();
      ghost var c1 := Emission.EmitExpr(ScopeOf(b), regs, c);
      var v := EmitExpr(c);
      if v.None? { return false; }
      ghost var c2 := EmitLoad(regs, v.value);
      var loaded := LoadIfAlloca(v.value);
      ghost var q := regs;
      var test := Define(ICmp(regs, INe, loaded, Const(TypeOf(loaded), 0)), I1);
      ghost var c3 := Code([ICmp(q, INe, loaded, Const(TypeOf(loaded), 0))], q + 1, test);
      JoinThree(b, c1, c2, c3);
      Insert(CondBr(test, yes, no));
      AppendMore(b, Join(Join(c1, c2), c3), [CondBr(test, yes, no)]);
      ok := true;
    }

    /** The condition, in front of three new blocks; the insert point goes into the first. */
    method EmitIfHead(c: Expr) returns (ok: bool)
      requires Valid() && lastError == ""
      modifies this`blocks, this`cur, this`regs, this`lastError
      ensures Valid()
      ensures match EmitCondition(old(ScopeOf(Built())), old(regs), c, |old(blocks)|, |old(blocks)| + 1)
              case Failed(message) => !ok && lastError == message != ""
              case Code(_, _, _) => ok && lastError == "" && Built() == IfEntry(old(Built()), c)
    {
      hide EmitCondition, Emission.EmitExpr;
      var thenBB, elseBB := |blocks|, |blocks| + 1;
      blocks := blocks + [[], [], []];
      ok := EmitBranchOn(c, thenBB, elseBB);
      if ok { cur := thenBB; }
    }

    method EmitIfStmt(c: Expr, t: Stmt, els: Option<Stmt>)
      requires Valid() && lastError == ""
      modifies this`blocks, this`cur, this`locals, this`slots, this`regs, this`lastError
      ensures Became(EmitIf(old(Built()), c, t, els))
      decreases If(c, t, els), 0
    {
      hide EmitBranch, EmitElse, EmitCondition, IfEntry, Emission.EmitExpr, Emission.EmitStmt, Extends;
      ghost var b := Built();
      var elseBB, mergeBB := |blocks| + 1, |blocks| + 2;
      var ok := EmitIfHead(c);
      if !ok { return; }
      EmitBranchBody(t, mergeBB);
      if lastError != "" { return; }
      ThenExtends(b, c, Built());
      EmitElseBlock(b, els, elseBB, mergeBB);
    }

    /** The `else` block, which only jumps if there is no statement, then on to the end. */
    method EmitElseBlock(ghost b: Builder, els: Option<Stmt>, elseBB: nat, mergeBB: nat)
      requires Valid() && lastError == "" && |b.blocks| < elseBB == mergeBB - 1 && mergeBB < |blocks|
      requires Extends(b, Built())
      modifies this`blocks, this`cur, this`locals, this`slots, this`regs, this`lastError
      ensures Became(EmitElse(b, old(Built()), elseBB - 1, els))
      decreases els, 4
    {
      cur := elseBB;
      if els.Some? {
        EmitBranchBody(els.value, mergeBB);
        if lastError != "" { return; }
      } else {
        Terminate(mergeBB);
      }
      cur := mergeBB;
    }

    /** Jump to `target` unless the block already ends. */
    method Terminate(target: nat)
      requires Valid()
      modifies this`blocks
      ensures Valid() && Built() == Close(old(Built()), target)
    {
      if !EndsInTerminator(blocks[cur]) { Insert(Br(target)); }
    }

    /** A statement, then the jump out of its block. */
    method EmitBranchBody(s: Stmt, target: nat)
      requires Valid() && lastError == ""
      modifies this`blocks, this`cur, this`locals, this`slots, this`regs, this`lastError
      ensures Became(EmitBranch(old(Built()), s, target))
      decreases s, 3
    {
      EmitStmt(s);
      if lastError == "" { Terminate(target); }
    }

    method EmitWhileStmt(c: Expr, body: Stmt)
      requires Valid() && lastError == ""
      modifies this`blocks, this`cur, this`locals, this`slots, this`regs, this`lastError
      ensures Became(EmitWhile(old(Built()), c, body))
      decreases While(c, body), 0
    {
      hide EmitBranch, EmitCondition, Emission.EmitExpr, Emission.EmitStmt;
      ghost var b := Built();
      var condBB, bodyBB, endBB := |blocks|, |blocks| + 1, |blocks| + 2;
      blocks := blocks + [[], [], []];
      Insert(Br(condBB));
      cur := condBB;
      assert Built() == LoopHead(b);
      var ok := EmitBranchOn(c, bodyBB, endBB);
      if !ok { return; }
      cur := bodyBB;
      assert Built() == LoopEntry(b, c);
      EmitBranchBody(body, condBB);
      if lastError != "" { return; }
      cur := endBB;
    }

    // ----- functions and translation units -----

    /** The entry block of a definition, in which each parameter is stored in a slot. */
    method EmitParameters(params: seq<string>)
      modifies this`blocks, this`cur, this`locals, this`slots, this`regs
      ensures Valid() && Built() == Prologue(sigs, params, |params|)
    {
      blocks, cur, locals, slots, regs := [[]], 0, map[], 0, |params|;
      for k := 0 to |params|
        invariant Valid() && Built() == Prologue(sigs, params, k)
      {
        locals := locals[params[k] := slots];
        slots := slots + 1;
        Insert(Store(Reg(k, I32), Slot(slots - 1)));
      }
    }

    /** A prototype, or a definition with its body. */
    method EmitFunction(f: Function)
      requires Valid() && lastError == ""
      modifies this
      ensures Valid()
      ensures sigs == if f.name in old(sigs) then old(sigs) else old(sigs)[f.name := SigOf(f)]
      ensures f.body.None? ==> lastError == "" && bodies == old(bodies)
      ensures f.body.Some? ==>
                match EmitDefinition(sigs, f)
                case Error(message) => lastError == message != ""
                case Ok(b) => lastError == "" && bodies == old(bodies)[f.name := IrFunction(RetTy(f.ret), b.blocks)]
    {
      hide Emission.EmitStmt, Extends, Prologue;
      if f.name !in sigs { sigs := sigs[f.name := SigOf(f)]; }
      if f.body.None? { return; }
      EmitParameters(f.params);
      EmitStmt(f.body.value);
      if lastError != "" { return; }
      if !EndsInTerminator(blocks[cur]) {
        Insert(if f.ret == CVoid then RetVoid else Ret(Const(I32, 0)));
      }
      bodies := bodies[f.name := IrFunction(RetTy(f.ret), blocks)];
    }

    /** Walk a translation unit, then have the module verified. The module is handed out
        exactly if every definition is accepted, which is read off its syntax; it then holds each
        definition, and each passes the verifier. */
    method Convert(decls: seq<Function>) returns (ir: Option<map<string, IrFunction>>)
      requires Valid()
      requires DefinedOnce(decls)
      modifies this
      ensures ir.Some? <==> AllAccepted(decls)
      ensures ir.Some? ==> ModuleOf(ir.value, decls)
      ensures ir.None? <==> lastError != ""
    {
      hide EmitDefinition, FunctionOk, Walked, SigsAfter, ModuleOf, AllAccepted;
      lastError, sigs, bodies := "", map[], map[];
      var k := 0;
      NoneWalked(decls);
      while k < |decls| && lastError == ""
        invariant 0 <= k <= |decls| && Valid()
        invariant lastError == "" ==> sigs == SigsAfter(decls[..k]) && Walked(decls, k, bodies)
        invariant lastError != "" ==> !AllAccepted(decls)
      {
        ghost var before, sofar := sigs, bodies;
        EmitFunction(decls[k]);
        if lastError == "" { OneMoreWalked(decls, k, before, sofar, sigs, bodies); }
        else { OneNotEmitted(decls, k, before, sigs); }
        k := k + 1;
      }
      if lastError != "" { return None; }
      if exists n :: n in bodies && !FunctionOk(bodies[n].blocks, bodies[n].ret) {
        OneNotVerified(decls, bodies);
        lastError := "Module verification failed";
        return None;
      }
      AllWalked(decls, bodies);
      ModuleIsAccepted(bodies, decls);
      ir := Some(bodies);
    }
  }

  /** The definitions among the first `k` declarations are in the module, and nothing else. */
  ghost predicate Walked(decls: seq<Function>, k: nat, bodies: map<string, IrFunction>) {
    && k <= |decls|
    && (forall i :: 0 <= i < k && decls[i].body.Some? ==> Has(bodies, decls, i))
    && forall n :: n in bodies ==> Defined(decls, n)
  }

  lemma NoneWalked(decls: seq<Function>)
    ensures SigsAfter(decls[..0]) == map[] && Walked(decls, 0, map[])
  {
  }

  lemma SigsOneMore(decls: seq<Function>, k: nat)
    requires k < |decls|
    ensures var before, f := SigsAfter(decls[..k]), decls[k];
            SigsAfter(decls[..k + 1]) == if f.name in before then before else before[f.name := SigOf(f)]
  {
    assert decls[..k + 1][..k] == decls[..k];
  }

  lemma OneMoreWalked(decls: seq<Function>, k: nat, sigs: Sigs, bodies: map<string, IrFunction>,
                      sigs1: Sigs, bodies1: map<string, IrFunction>)
    requires DefinedOnce(decls) && k < |decls| && sigs == SigsAfter(decls[..k]) && Walked(decls, k, bodies)
    requires sigs1 == if decls[k].name in sigs then sigs else sigs[decls[k].name := SigOf(decls[k])]
    requires decls[k].body.None? ==> bodies1 == bodies
    requires decls[k].body.Some? ==>
               && EmitDefinition(sigs1, decls[k]).Ok?
               && bodies1 == bodies[decls[k].name :=
                                      IrFunction(RetTy(decls[k].ret), EmitDefinition(sigs1, decls[k]).b.blocks)]
    ensures sigs1 == SigsAfter(decls[..k + 1]) && Walked(decls, k + 1, bodies1)
  {
    hide EmitDefinition, SigsAfter;
    SigsOneMore(decls, k);
    forall i | 0 <= i < k + 1 && decls[i].body.Some? ensures Has(bodies1, decls, i) {
      if i < k { assert Has(bodies, decls, i); }
    }
  }

  lemma OneNotEmitted(decls: seq<Function>, k: nat, sigs: Sigs, sigs1: Sigs)
    requires k < |decls| && decls[k].body.Some? && sigs == SigsAfter(decls[..k])
    requires sigs1 == if decls[k].name in sigs then sigs else sigs[decls[k].name := SigOf(decls[k])]
    requires EmitDefinition(sigs1, decls[k]).Error?
    ensures !AllAccepted(decls)
  {
    hide EmitDefinition, SigsAfter, Acceptance.Accepted;
    SigsOneMore(decls, k);
    Acceptance.AcceptedExactly(sigs1, decls[k]);
    assert !AcceptedAt(decls, k);
  }

  lemma OneNotVerified(decls: seq<Function>, bodies: map<string, IrFunction>)
    requires Walked(decls, |decls|, bodies)
    requires exists n :: n in bodies && !FunctionOk(bodies[n].blocks, bodies[n].ret)
    ensures !AllAccepted(decls)
  {
    hide EmitDefinition, SigsAfter, Acceptance.Accepted, FunctionOk;
    var n :| n in bodies && !FunctionOk(bodies[n].blocks, bodies[n].ret);
    assert Defined(decls, n);
    var k :| 0 <= k < |decls| && decls[k].name == n && decls[k].body.Some?;
    assert Has(bodies, decls, k);
    Acceptance.AcceptedExactly(SigsAfter(decls[..k + 1]), decls[k]);
    assert !AcceptedAt(decls, k);
  }

  lemma ModuleIsAccepted(ir: map<string, IrFunction>, decls: seq<Function>)
    requires ModuleOf(ir, decls)
    ensures AllAccepted(decls)
  {
    hide EmitDefinition, SigsAfter, Acceptance.Accepted, FunctionOk;
    forall k | 0 <= k < |decls| && decls[k].body.Some? ensures AcceptedAt(decls, k) {
      assert Has(ir, decls, k);
      Acceptance.AcceptedExactly(SigsAfter(decls[..k + 1]), decls[k]);
    }
  }

  lemma AllWalked(decls: seq<Function>, bodies: map<string, IrFunction>)
    requires Walked(decls, |decls|, bodies)
    requires forall n :: n in bodies ==> FunctionOk(bodies[n].blocks, bodies[n].ret)
    ensures ModuleOf(bodies, decls)
  {
    hide FunctionOk, EmitDefinition;
  }

  /** The module holds the k-th declaration as `DefinitionAt` emits it. */
  predicate Has(bodies: map<string, IrFunction>, decls: seq<Function>, k: nat)
    requires k < |decls| && decls[k].body.Some?
  {
    && DefinitionAt(decls, k).Ok? && decls[k].name in bodies
    && bodies[decls[k].name] == IrFunction(RetTy(decls[k].ret), DefinitionAt(decls, k).b.blocks)
  }

  lemma ThenExtends(b: Builder, c: Expr, b2: Builder)
    requires EmitCondition(ScopeOf(b), b.regs, c, |b.blocks|, |b.blocks| + 1).Code? && Extends(IfEntry(b, c), b2)
    ensures Extends(b, b2) && |b.blocks| + 2 < |b2.blocks|
  {
    IfEntryExtends(b, c);
    ExtendsFrom(b, IfEntry(b, c), b2);
  }

  lemma IfEntryExtends(b: Builder, c: Expr)
    requires EmitCondition(ScopeOf(b), b.regs, c, |b.blocks|, |b.blocks| + 1).Code?
    ensures Extends(b, IfEntry(b, c)) && |b.blocks| + 2 < |IfEntry(b, c).blocks|
  {
  }

  lemma NothingAdded(b: Builder)
    ensures forall v :: AppendCode(b, Code([], b.regs, v)) == b
  {
    assert Current(b) + [] == Current(b);
  }

  lemma BinaryCode(s: Scope, q: nat, op: BinOp, l: Expr, r: Expr)
    ensures var lhs := EmitExpr(s, q, l);
            if lhs.Failed? then EmitExpr(s, q, Bin(op, l, r)) == Failed(NO_OPERANDS)
            else
              var rhs := EmitExpr(s, lhs.regs, r);
              if rhs.Failed? then EmitExpr(s, q, Bin(op, l, r)) == Failed(NO_OPERANDS)
              else
                var c := EmitBinary(rhs.regs, op, lhs.val, rhs.val);
                EmitExpr(s, q, Bin(op, l, r)) == if c.Failed? then c else Join(Join(lhs, rhs), c)
  {
  }

  lemma OperatorCode(op: BinOp)
    requires op != Assign
    ensures forall q, l, r :: if op == OtherBin then EmitOperator(q, op, l, r) == Failed(BAD_BINARY)
                              else EmitOperator(q, op, l, r).Code?
  {
  }

  lemma UnaryCode(s: Scope, q: nat, op: UnOp, i: Expr)
    ensures var v := EmitExpr(s, q, i);
            if v.Failed? then EmitExpr(s, q, Un(op, i)) == Failed(NO_OPERAND)
            else
              var l := EmitLoad(v.regs, v.val);
              var c := EmitUnary(l.regs, op, l.val);
              EmitExpr(s, q, Un(op, i)) == if c.Failed? then c else Join(Join(v, l), c)
  {
  }

  lemma JoinThree(b: Builder, c: Code, d: Code, e: Code)
    requires c.Code? && d.Code?
    ensures e.Code? ==> AppendCode(AppendCode(AppendCode(b, c), d), e) == AppendCode(b, Join(Join(c, d), e))
  {
    AppendJoin(b, c, d);
    if e.Code? { AppendJoin(b, Join(c, d), e); }
  }

  /** Arguments already emitted, then the rest. */
  function Prepend(instrs: Block, vals: seq<Val>, rest: ArgsCode): ArgsCode {
    match rest
    case ArgsFailed(message) => rest
    case Args(i, q, vs) => Args(instrs + i, q, vals + vs)
  }

  lemma PrependTwice(instrs: Block, vals: seq<Val>, more: Block, v: Val, rest: ArgsCode)
    ensures Prepend(instrs, vals, Prepend(more, [v], rest)) == Prepend(instrs + more, vals + [v], rest)
  {
    if rest.Args? {
      assert instrs + (more + rest.instrs) == instrs + more + rest.instrs;
      assert vals + ([v] + rest.vals) == vals + [v] + rest.vals;
    }
  }

  lemma AppendMore(b: Builder, c: Code, more: Block)
    requires c.Code?
    ensures Append(AppendCode(b, c), more) == AppendCode(b, Code(c.instrs + more, c.regs, c.val))
  {
    assert Current(b) + c.instrs + more == Current(b) + (c.instrs + more);
    var all := Current(b) + (c.instrs + more);
    assert b.blocks[b.cur := Current(b) + c.instrs][b.cur := all] == b.blocks[b.cur := all];
  }

  /** Appending twice is appending the two pieces joined. */
  lemma AppendJoin(b: Builder, c: Code, d: Code)
    requires c.Code? && d.Code?
    ensures AppendCode(AppendCode(b, c), d) == AppendCode(b, Join(c, d))
  {
    assert Current(b) + c.instrs + d.instrs == Current(b) + (c.instrs + d.instrs);
    var all := Current(b) + (c.instrs + d.instrs);
    assert b.blocks[b.cur := Current(b) + c.instrs][b.cur := all] == b.blocks[b.cur := all];
  }
}
