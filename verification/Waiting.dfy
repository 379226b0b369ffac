/** Where evaluation in C comes to a call that is not answered, so does the emitted code. */
module Waiting {
  import opened Wrappers
  import opened CSource
  import opened LlvmIr
  import opened Emission
  import opened ExprMeaning

  lemma WaitsFirst(a: Block, b: Block, m: Machine, w: World)
    requires CodeWaits(a, m, w)
    ensures CodeWaits(a + b, m, w)
  {
    hide RunCode, Waits;
    var k: nat :| k < |a| && RunCode(a[..k], m, w).Some? && Waits(a[k], RunCode(a[..k], m, w).value, w);
    assert (a + b)[..k] == a[..k] && (a + b)[k] == a[k];
  }

  lemma WaitsLater(a: Block, b: Block, m: Machine, m1: Machine, w: World)
    requires Runs(a, m, m1, w) && CodeWaits(b, m1, w)
    ensures CodeWaits(a + b, m, w)
  {
    hide RunCode, Waits;
    var k: nat :| k < |b| && RunCode(b[..k], m1, w).Some? && Waits(b[k], RunCode(b[..k], m1, w).value, w);
    RunCodeAppend(a, b[..k], m, w);
    assert (a + b)[..|a| + k] == a + b[..k] && (a + b)[|a| + k] == b[k];
  }

  lemma WaitsNow(i: Instr, m: Machine, w: World)
    requires Waits(i, m, w)
    ensures CodeWaits([i], m, w)
  {
    assert [i][..0] == [];
    assert RunCode([i][..0], m, w) == Some(m) && Waits([i][0], m, w);
  }

  lemma {:induction false} ExprWaits(s: Scope, q: nat, e: Expr, env: Env, st: CState, w: World, m: Machine)
    requires EmitExpr(s, q, e).Code? && WellTyped(EmitExpr(s, q, e).instrs) && SigsOk(s.sigs)
    requires Faithful(e, s.sigs) && Mirrors(m, env, st, s.locals)
    requires EvalExpr(e, env, st, w).Pending?
    ensures CodeWaits(EmitExpr(s, q, e).instrs, m, w)
    decreases e, 1
  {
    hide CodeWaits, RunCode, WellTyped;
    match e
    case Paren(i) => ExprWaits(s, q, i, env, st, w, m);
    case Cast(i) => ExprWaits(s, q, i, env, st, w, m);
    case Un(op, i) =>
      var v := EmitExpr(s, q, i);
      var l := EmitLoad(v.regs, v.val);
      var u := EmitUnary(l.regs, op, l.val);
      TypedParts(v.instrs + l.instrs, u.instrs);
      TypedParts(v.instrs, l.instrs);
      ExprWaits(s, q, i, env, st, w, m);
      WaitsFirst(v.instrs, l.instrs, m, w);
      WaitsFirst(v.instrs + l.instrs, u.instrs, m, w);
    case Bin(op, l, r) => BinWaits(s, q, op, l, r, env, st, w, m);
    case Call(f, args) => CallWaits(s, q, f, args, env, st, w, m);
  }

  lemma {:induction false} BinWaits(s: Scope, q: nat, op: BinOp, l: Expr, r: Expr, env: Env, st: CState, w: World,
                                    m: Machine)
    requires var e := Bin(op, l, r);
             && EmitExpr(s, q, e).Code? && WellTyped(EmitExpr(s, q, e).instrs) && SigsOk(s.sigs)
             && Faithful(e, s.sigs) && Mirrors(m, env, st, s.locals)
             && EvalExpr(e, env, st, w).Pending?
    ensures CodeWaits(EmitExpr(s, q, Bin(op, l, r)).instrs, m, w)
    decreases Bin(op, l, r), 0
  {
    hide CodeWaits, RunCode, WellTyped, EmitBinary;
    var lhs := EmitExpr(s, q, l);
    var rhs := EmitExpr(s, lhs.regs, r);
    var c := EmitBinary(rhs.regs, op, lhs.val, rhs.val);
    TypedParts(lhs.instrs + rhs.instrs, c.instrs);
    TypedParts(lhs.instrs, rhs.instrs);
    if op == Assign {
      assert Cell(LValue(l).value, env, st, s.locals, m.mem);
      LValueCode(s, q, l);
      RunsNone(m, w);
      ExprWaits(s, lhs.regs, r, env, st, w, m);
      WaitsLater(lhs.instrs, rhs.instrs, m, m, w);
    } else if EvalExpr(l, env, st, w).Pending? {
      ExprWaits(s, q, l, env, st, w, m);
      WaitsFirst(lhs.instrs, rhs.instrs, m, w);
    } else {
      var m2 := ExprMeans(s, q, l, env, st, w, m);
      ExprWaits(s, lhs.regs, r, env, EvalExpr(l, env, st, w).st, w, m2);
      WaitsLater(lhs.instrs, rhs.instrs, m, m2, w);
    }
    WaitsFirst(lhs.instrs + rhs.instrs, c.instrs, m, w);
  }

  lemma {:induction false} OperandWaits(s: Scope, q: nat, e: Expr, env: Env, st: CState, w: World, m: Machine)
    requires EmitOperand(s, q, e).Code? && WellTyped(EmitOperand(s, q, e).instrs) && SigsOk(s.sigs)
    requires Faithful(e, s.sigs) && Mirrors(m, env, st, s.locals)
    requires EvalExpr(e, env, st, w).Pending?
    ensures CodeWaits(EmitOperand(s, q, e).instrs, m, w)
    decreases e, 2
  {
    hide CodeWaits, RunCode, WellTyped;
    var v := EmitExpr(s, q, e);
    var l := EmitLoad(v.regs, v.val);
    var z := EmitCoerce(l.regs, l.val);
    TypedParts(v.instrs + l.instrs, z.instrs);
    TypedParts(v.instrs, l.instrs);
    ExprWaits(s, q, e, env, st, w, m);
    WaitsFirst(v.instrs, l.instrs, m, w);
    WaitsFirst(v.instrs + l.instrs, z.instrs, m, w);
  }

  lemma {:induction false} ArgsWait(s: Scope, q: nat, args: seq<Expr>, env: Env, st: CState, w: World, m: Machine)
    requires EmitArgs(s, q, args).Args? && WellTyped(EmitArgs(s, q, args).instrs) && SigsOk(s.sigs)
    requires (forall i :: 0 <= i < |args| ==> Faithful(args[i], s.sigs)) && Mirrors(m, env, st, s.locals)
    requires EvalArgs(args, env, st, w).ArgsPending?
    ensures CodeWaits(EmitArgs(s, q, args).instrs, m, w)
    decreases args, 0
  {
    hide CodeWaits, RunCode, WellTyped;
    var v := EmitOperand(s, q, args[0]);
    var rest := EmitArgs(s, v.regs, args[1..]);
    TypedParts(v.instrs, rest.instrs);
    if EvalExpr(args[0], env, st, w).Pending? {
      OperandWaits(s, q, args[0], env, st, w, m);
      WaitsFirst(v.instrs, rest.instrs, m, w);
    } else {
      var m2 := OperandMeans(s, q, args[0], env, st, w, m);
      ArgsWait(s, v.regs, args[1..], env, EvalExpr(args[0], env, st, w).st, w, m2);
      WaitsLater(v.instrs, rest.instrs, m, m2, w);
    }
  }

  lemma {:induction false} CallWaits(s: Scope, q: nat, f: string, args: seq<Expr>, env: Env, st: CState, w: World,
                                     m: Machine)
    requires var e := Call(f, args);
             && EmitExpr(s, q, e).Code? && WellTyped(EmitExpr(s, q, e).instrs) && SigsOk(s.sigs)
             && Faithful(e, s.sigs) && Mirrors(m, env, st, s.locals)
             && EvalExpr(e, env, st, w).Pending?
    ensures CodeWaits(EmitExpr(s, q, Call(f, args)).instrs, m, w)
    decreases Call(f, args), 0
  {
    hide CodeWaits, RunCode, WellTyped;
    var c := EmitArgs(s, q, args);
    var i := CallF(c.regs, f, s.sigs[f], c.vals);
    TypedParts(c.instrs, [i]);
    if EvalArgs(args, env, st, w).ArgsPending? {
      ArgsWait(s, q, args, env, st, w, m);
      WaitsFirst(c.instrs, [i], m, w);
    } else {
      var Values(ns, st1) := EvalArgs(args, env, st, w);
      var m2 := ArgsMean(s, q, args, env, st, w, m);
      HeldArguments(c.vals, m2.regs, c.regs, ns);
      WaitsNow(i, m2, w);
      WaitsLater(c.instrs, [i], m, m2, w);
    }
  }
}
