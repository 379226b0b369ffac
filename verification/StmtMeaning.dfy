/** Emitted statements do what C says they do, loops included. */
module StmtMeaning {
  import opened Wrappers
  import opened CSource
  import opened LlvmIr
  import opened Emission
  import opened ExprMeaning
  import opened Waiting

  // ----- the fragment -----

  predicate FaithfulInit(init: Option<Expr>, sigs: Sigs) { init.Some? ==> Faithful(init.value, sigs) }

  predicate FaithfulStmt(s: Stmt, sigs: Sigs)
    decreases s
  {
    match s
    case Compound(body) => forall k :: 0 <= k < |body| ==> FaithfulStmt(body[k], sigs)
    case Return(v) => FaithfulInit(v, sigs)
    case Decl(_, init) => FaithfulInit(init, sigs)
    case If(c, t, els) => Faithful(c, sigs) && FaithfulStmt(t, sigs) && (els.Some? ==> FaithfulStmt(els.value, sigs))
    case While(c, body) => Faithful(c, sigs) && FaithfulStmt(body, sigs)
    case ExprStmt(e) => Faithful(e, sigs)
    case OtherStmt(_) => true
  }

  function Declared(s: Stmt): set<string> { if s.Decl? then {s.x} else {} }

  /** No declaration hides a name that is visible where it stands. */
  predicate Unshadowed(s: Stmt, scope: set<string>)
    decreases s, 1
  {
    match s
    case Compound(body) => UnshadowedSeq(body, scope)
    case OtherStmt(children) => UnshadowedSeq(children, scope)
    case Decl(x, _) => x !in scope
    case If(_, t, els) => Unshadowed(t, scope) && (els.Some? ==> Unshadowed(els.value, scope))
    case While(_, body) => Unshadowed(body, scope)
    case _ => true
  }

  predicate UnshadowedSeq(ss: seq<Stmt>, scope: set<string>)
    decreases ss, 0
  {
    ss == [] || (Unshadowed(ss[0], scope) && UnshadowedSeq(ss[1..], scope + Declared(ss[0])))
  }

  // ----- what emission does to the table of locals -----

  predicate LocalsOk(b: Builder) { forall x :: x in b.locals ==> b.locals[x] < b.slots }

  predicate SameLocals(scope: set<string>, a: map<string, nat>, b: map<string, nat>) {
    forall x :: x in scope && x in a ==> x in b && b[x] == a[x]
  }

  lemma {:induction false} LocalsKept(b: Builder, s: Stmt, scope: set<string>)
    requires LocalsOk(b) && Unshadowed(s, scope) && EmitStmt(b, s).Ok?
    ensures LocalsOk(EmitStmt(b, s).b)
    ensures SameLocals(scope, b.locals, EmitStmt(b, s).b.locals)
    decreases s, 1
  {
    match s
    case Compound(body) => LocalsKeptSeq(b, body, scope);
    case OtherStmt(children) => LocalsKeptSeq(b, children, scope);
    case If(c, t, els) => LocalsKeptIf(b, c, t, els, scope);
    case While(c, body) =>
      assert EmitWhile(b, c, body).Ok?;
      LocalsKeptBranch(LoopEntry(b, c), body, |b.blocks|, scope);
    case _ =>
  }

  lemma {:induction false} LocalsKeptIf(b: Builder, c: Expr, t: Stmt, els: Option<Stmt>, scope: set<string>)
    requires LocalsOk(b) && Unshadowed(If(c, t, els), scope) && EmitStmt(b, If(c, t, els)).Ok?
    ensures LocalsOk(EmitStmt(b, If(c, t, els)).b)
    ensures SameLocals(scope, b.locals, EmitStmt(b, If(c, t, els)).b.locals)
    decreases If(c, t, els), 0
  {
    hide EmitBranch, EmitCondition;
    assert EmitIf(b, c, t, els).Ok?;
    LocalsKeptBranch(IfEntry(b, c), t, |b.blocks| + 2, scope);
    var b2 := EmitBranch(IfEntry(b, c), t, |b.blocks| + 2).b;
    assert EmitStmt(b, If(c, t, els)) == EmitElse(b, b2, |b.blocks|, els);
    if els.Some? { LocalsKeptBranch(EnterBlock(b2, |b.blocks| + 1), els.value, |b.blocks| + 2, scope); }
  }

  lemma {:induction false} LocalsKeptBranch(b: Builder, s: Stmt, target: nat, scope: set<string>)
    requires LocalsOk(b) && Unshadowed(s, scope) && EmitBranch(b, s, target).Ok?
    ensures LocalsOk(EmitBranch(b, s, target).b)
    ensures SameLocals(scope, b.locals, EmitBranch(b, s, target).b.locals)
    decreases s, 2
  {
    LocalsKept(b, s, scope);
  }

  lemma {:induction false} LocalsKeptSeq(b: Builder, ss: seq<Stmt>, scope: set<string>)
    requires LocalsOk(b) && UnshadowedSeq(ss, scope) && EmitSeq(b, ss).Ok?
    ensures LocalsOk(EmitSeq(b, ss).b)
    ensures SameLocals(scope, b.locals, EmitSeq(b, ss).b.locals)
    decreases ss, 0
  {
    if ss != [] {
      LocalsKept(b, ss[0], scope);
      LocalsKeptSeq(EmitStmt(b, ss[0]).b, ss[1..], scope + Declared(ss[0]));
    }
  }

  // ----- execution in place -----

  /** The finished function contains everything emitted so far. */
  predicate Contains(p: seq<Block>, b: Builder) {
    |b.blocks| <= |p| && forall k :: 0 <= k < |b.blocks| ==> b.blocks[k] <= p[k]
  }

  lemma ContainsEarlier(p: seq<Block>, a: Builder, b: Builder)
    requires Contains(p, b) && Extends(a, b)
    ensures Contains(p, a)
  {
  }

  ghost predicate Typed(p: seq<Block>, ret: Ty) {
    forall k, i :: 0 <= k < |p| && 0 <= i < |p[k]| ==> InstrOk(p[k][i], ret, |p|)
  }

  /** The point of execution that corresponds to the builder's insert point. */
  function At(b: Builder, m: Machine): Config {
    Run(b.cur, |Current(b)|, m)
  }

  predicate Reaches(p: seq<Block>, w: World, c: Config, k: nat, d: Config) {
    Steps(p, c, w, k) == d
  }

  lemma Stands(p: seq<Block>, w: World, c: Config)
    ensures Reaches(p, w, c, 0, c)
  {
  }

  lemma ReachesThen(p: seq<Block>, w: World, c: Config, j: nat, d: Config, k: nat, e: Config)
    requires Reaches(p, w, c, j, d) && Reaches(p, w, d, k, e)
    ensures Reaches(p, w, c, j + k, e)
  {
    StepsCompose(p, c, w, j, k);
  }

  lemma CodeTyped(p: seq<Block>, b: Builder, code: Block, ret: Ty)
    requires Contains(p, Append(b, code)) && Typed(p, ret)
    ensures WellTyped(code)
  {
    var q := Append(b, code).blocks[b.cur];
    assert q <= p[b.cur];
    forall i | 0 <= i < |code| ensures PlainOk(code[i]) {
      assert code[i] == q[|Current(b)| + i] == p[b.cur][|Current(b)| + i];
    }
  }

  /** Straight-line code appended at the insert point moves the machine past it and
      leaves the block open. */
  lemma CodeInPlace(p: seq<Block>, b: Builder, code: Block, m: Machine, m1: Machine, w: World)
    requires Contains(p, Append(b, code)) && Runs(code, m, m1, w)
    ensures Reaches(p, w, At(b, m), |code|, At(Append(b, code), m1))
    ensures Terminated(Append(b, code)) ==> Terminated(b)
  {
    var q := Append(b, code).blocks[b.cur];
    assert q <= p[b.cur];
    RunCodeInPlace(p, b.cur, Current(b), code, m, m1, w);
    if code == [] { assert Current(b) + code == Current(b); }
  }

  /** Code appended at the insert point that waits for a call keeps the machine running. */
  lemma WaitsInPlace(p: seq<Block>, b: Builder, code: Block, m: Machine, w: World, fuel: nat)
    returns (k: nat, c: Config)
    requires Contains(p, Append(b, code)) && CodeWaits(code, m, w)
    ensures k >= fuel && Reaches(p, w, At(b, m), k, c) && c.Run?
  {
    hide RunCode, Waits, Steps;
    var j: nat :| j < |code| && RunCode(code[..j], m, w).Some? && Waits(code[j], RunCode(code[..j], m, w).value, w);
    var q := Append(b, code).blocks[b.cur];
    assert q <= p[b.cur];
    assert Current(b) + code[..j] <= q;
    RunCodeInPlace(p, b.cur, Current(b), code[..j], m, RunCode(code[..j], m, w).value, w);
    c := Run(b.cur, |Current(b) + code[..j]|, RunCode(code[..j], m, w).value);
    assert p[b.cur][|Current(b)| + j] == q[|Current(b)| + j] == code[j];
    Stuck(p, c, w);
    StepsStay(p, c, w, fuel);
    StepsCompose(p, At(b, m), w, j, fuel);
    k := j + fuel;
  }

  lemma Stuck(p: seq<Block>, c: Config, w: World)
    requires c.Run? && c.block < |p| && c.pc < |p[c.block]| && Waits(p[c.block][c.pc], c.m, w)
    ensures Step(p, c, w) == c
  {
  }

  /** A terminator appended at the insert point. */
  lemma TerminatorInPlace(p: seq<Block>, b: Builder, i: Instr, m: Machine, w: World)
    requires Contains(p, Append(b, [i])) && i.IsTerminator()
    ensures Reaches(p, w, At(b, m), 1, ExecTerminator(i, m))
  {
  }

  /** Straight-line code followed by a terminator. */
  lemma CodeThenTerminator(p: seq<Block>, b: Builder, code: Block, i: Instr, m: Machine, m1: Machine, w: World)
    requires Contains(p, Append(b, code + [i])) && Runs(code, m, m1, w) && i.IsTerminator()
    ensures Reaches(p, w, At(b, m), |code| + 1, ExecTerminator(i, m1))
  {
    var b1 := Append(b, code);
    assert Append(b1, [i]).blocks == Append(b, code + [i]).blocks by {
      assert Current(b) + code + [i] == Current(b) + (code + [i]);
    }
    assert Contains(p, Append(b1, [i]));
    ContainsEarlier(p, b1, Append(b1, [i]));
    CodeInPlace(p, b, code, m, m1, w);
    TerminatorInPlace(p, b1, i, m1, w);
    ReachesThen(p, w, At(b, m), |code|, At(b1, m1), 1, ExecTerminator(i, m1));
  }

  predicate Widens(a: Env, b: Env) { forall x :: x in a ==> x in b && b[x] == a[x] }

  /** The machine, `k` steps after `start`, stands where the outcome of the statement says:
      at the insert point `b`, or finished, or still running if the fuel ran out. */
  ghost predicate Done(p: seq<Block>, b: Builder, env: Env, r: Outcome, w: World, start: Config,
                       fuel: nat, k: nat, c: Config)
  {
    match r
    case Normal(env1, st1) =>
      && Reaches(p, w, start, k, c)
      && c.Run? && c == At(b, c.m) && Mirrors(c.m, env1, st1, b.locals)
      && Widens(env, env1) && !Terminated(b)
    case Returned(v, tr) => Reaches(p, w, start, k, c) && c == Halt(v, tr)
    case OutOfFuel => k >= fuel && Reaches(p, w, start, k, c) && c.Run?
    case Wrong => true
  }

  /** Steps taken before count too. */
  lemma DoneLater(p: seq<Block>, b: Builder, env: Env, env1: Env, r: Outcome, w: World, start: Config, j: nat,
                  mid: Config, fuel: nat, more: nat, k: nat, c: Config)
    requires Reaches(p, w, start, j, mid)
    requires Done(p, b, env1, r, w, mid, fuel, k, c) && Widens(env, env1)
    requires more <= fuel + j
    ensures Done(p, b, env, r, w, start, more, j + k, c)
  {
    hide Steps;
    if !r.Wrong? { ReachesThen(p, w, start, j, mid, k, c); }
  }

  /** Outer names keep their meaning when a block is left. */
  lemma RelatedOuter(env: Env, env1: Env, st: CState, locals: map<string, nat>, locals1: map<string, nat>, mem: Memory)
    requires Related(env1, st, locals, mem) && Widens(env, env1)
    requires SameLocals(env.Keys, locals, locals1)
    ensures Related(env, st, locals1, mem)
  {
  }

  // ----- simple statements -----

  /** The setting in which emitted code runs: the program `p` is well typed, and the
      machine mirrors the C state. */
  ghost predicate Ready(p: seq<Block>, b: Builder, env: Env, st: CState, m: Machine, ret: Ty) {
    && Typed(p, ret) && SigsOk(b.sigs)
    && LocalsOk(b) && Mirrors(m, env, st, b.locals)
  }

  /** The statement is in the fragment. */
  predicate Inside(s: Stmt, env: Env, sigs: Sigs) {
    FaithfulStmt(s, sigs) && Unshadowed(s, env.Keys)
  }

  predicate InsideSeq(ss: seq<Stmt>, env: Env, sigs: Sigs) {
    (forall k :: 0 <= k < |ss| ==> FaithfulStmt(ss[k], sigs)) && UnshadowedSeq(ss, env.Keys)
  }

  lemma ReturnMeans(p: seq<Block>, b: Builder, e: Expr, env: Env, st: CState, w: World, fuel: nat, m: Machine, ret: Ty)
    returns (k: nat, c: Config)
    requires EmitReturn(b, Some(e)).Ok? && Contains(p, EmitReturn(b, Some(e)).b)
    requires Ready(p, b, env, st, m, ret) && Faithful(e, b.sigs)
    ensures Done(p, EmitReturn(b, Some(e)).b, env, EvalStmt(Return(Some(e)), env, st, w, fuel), w,
                 At(b, m), fuel, k, c)
  {
    hide EmitExpr, EmitOperand, Related, Steps;
    var v := EmitOperand(ScopeOf(b), b.regs, e);
    var i := Ret(v.val);
    AppendTwice(b, v, [i]);
    assert Contains(p, Append(b, v.instrs + [i]));
    CodeTyped(p, b, v.instrs + [i], ret);
    TypedParts(v.instrs, [i]);
    k, c := 0, Broken;
    if EvalExpr(e, env, st, w).Pending? {
      OperandWaits(ScopeOf(b), b.regs, e, env, st, w, m);
      WaitsFirst(v.instrs, [i], m, w);
      k, c := WaitsInPlace(p, b, v.instrs + [i], m, w, fuel);
    }
    if EvalExpr(e, env, st, w).Value? {
      var m1 := OperandMeans(ScopeOf(b), b.regs, e, env, st, w, m);
      CodeThenTerminator(p, b, v.instrs, i, m, m1, w);
      k, c := |v.instrs| + 1, ExecTerminator(i, m1);
    }
  }

  lemma AppendTwice(b: Builder, c: Code, more: Block)
    requires c.Code?
    ensures Append(AppendCode(b, c), more) == Append(b, c.instrs + more).(regs := c.regs)
  {
    assert Current(b) + c.instrs + more == Current(b) + (c.instrs + more);
    var last := Current(b) + (c.instrs + more);
    assert b.blocks[b.cur := Current(b) + c.instrs][b.cur := last] == b.blocks[b.cur := last];
  }

  lemma DeclMirrors(b: Builder, x: string, env: Env, st: CState, m: Machine)
    requires LocalsOk(b) && Mirrors(m, env, st, b.locals) && x !in env
    ensures Mirrors(m, env[x := st.next], st.(next := st.next + 1, store := st.store - {st.next}),
                    Allocate(b, x).locals)
  {
  }

  lemma DeclMeans(p: seq<Block>, b: Builder, x: string, init: Option<Expr>, env: Env, st: CState, w: World, fuel: nat,
                  m: Machine, ret: Ty)
    returns (k: nat, c: Config)
    requires EmitDecl(b, x, init).Ok? && Contains(p, EmitDecl(b, x, init).b)
    requires Ready(p, b, env, st, m, ret) && FaithfulInit(init, b.sigs) && x !in env
    requires !Terminated(b)
    ensures Done(p, EmitDecl(b, x, init).b, env, EvalStmt(Decl(x, init), env, st, w, fuel), w,
                 At(b, m), fuel, k, c)
  {
    hide EvalStmt, EvalExpr, EmitExpr, EmitOperand, Steps, Mirrors, Typed;
    var env1, st1 := env[x := st.next], st.(next := st.next + 1, store := st.store - {st.next});
    DeclMirrors(b, x, env, st, m);
    DeclEval(x, init, env, st, w, fuel);
    Stands(p, w, At(b, m));
    k, c := 0, At(b, m);
    if init.Some? && !EvalExpr(init.value, env1, st1, w).Undefined? {
      var b1 := Allocate(b, x);
      var v := EmitOperand(ScopeOf(b1), b1.regs, init.value);
      var i := Store(v.val, Slot(b.slots));
      AppendTwice(b1, v, [i]);
      assert Contains(p, Append(b1, v.instrs + [i]));
      CodeTyped(p, b1, v.instrs + [i], ret);
      if EvalExpr(init.value, env1, st1, w).Pending? {
        TypedParts(v.instrs, [i]);
        OperandWaits(ScopeOf(b1), b1.regs, init.value, env1, st1, w, m);
        WaitsFirst(v.instrs, [i], m, w);
        k, c := WaitsInPlace(p, b1, v.instrs + [i], m, w, fuel);
        return;
      }
      var m1 := InitMeans(b1, x, init.value, env1, st1, w, m);
      CodeInPlace(p, b1, v.instrs + [i], m, m1, w);
      k, c := |v.instrs| + 1, At(Append(b1, v.instrs + [i]), m1);
    }
  }

  lemma DeclEval(x: string, init: Option<Expr>, env: Env, st: CState, w: World, fuel: nat)
    ensures var env1, st1 := env[x := st.next], st.(next := st.next + 1, store := st.store - {st.next});
            var r := EvalStmt(Decl(x, init), env, st, w, fuel);
            && (init.None? ==> r == Normal(env1, st1))
            && (init.Some? && EvalExpr(init.value, env1, st1, w).Undefined? ==> r == Wrong)
            && (init.Some? && EvalExpr(init.value, env1, st1, w).Pending? ==> r == OutOfFuel)
            && (init.Some? && EvalExpr(init.value, env1, st1, w).Value? ==>
                  var Value(n, st2) := EvalExpr(init.value, env1, st1, w);
                  r == Normal(env1, st2.(store := st2.store[st.next := n])))
  {
  }

  /** The initializer: compute it, then store it in the variable's slot. */
  lemma InitMeans(b: Builder, x: string, e: Expr, env: Env, st: CState, w: World, m: Machine) returns (m1: Machine)
    requires x in b.locals && x in env && SigsOk(b.sigs)
    requires EmitOperand(ScopeOf(b), b.regs, e).Code? && Faithful(e, b.sigs) && Mirrors(m, env, st, b.locals)
    requires var v := EmitOperand(ScopeOf(b), b.regs, e);
             WellTyped(v.instrs + [Store(v.val, Slot(b.locals[x]))])
    requires EvalExpr(e, env, st, w).Value?
    ensures var v := EmitOperand(ScopeOf(b), b.regs, e);
            var Value(n, st1) := EvalExpr(e, env, st, w);
            && Runs(v.instrs + [Store(v.val, Slot(b.locals[x]))], m, m1, w)
            && Mirrors(m1, env, st1.(store := st1.store[env[x] := n]), b.locals)
  {
    hide EmitExpr, EmitOperand, Related;
    var v := EmitOperand(ScopeOf(b), b.regs, e);
    var i := Store(v.val, Slot(b.locals[x]));
    var Value(n, st1) := EvalExpr(e, env, st, w);
    TypedParts(v.instrs, [i]);
    assert PlainOk([i][0]);
    var m2 := OperandMeans(ScopeOf(b), b.regs, e, env, st, w, m);
    m1 := m2.(mem := m2.mem[b.locals[x] := n]);
    RunsOne(i, m2, w);
    RunsThen(v.instrs, [i], m, m2, m1, w);
    StoreRelated(env, st1, b.locals, m2.mem, x, n);
  }

  /** The code of a condition up to its branch. */
  lemma TestMeans(s: Scope, q: nat, e: Expr, yes: nat, no: nat, env: Env, st: CState, w: World, m: Machine)
    returns (code: Block, branch: Instr, m1: Machine)
    requires EmitCondition(s, q, e, yes, no).Code? && WellTyped(EmitCondition(s, q, e, yes, no).instrs)
    requires SigsOk(s.sigs) && Faithful(e, s.sigs) && Mirrors(m, env, st, s.locals)
    requires EvalExpr(e, env, st, w).Value?
    ensures EmitCondition(s, q, e, yes, no).instrs == code + [branch] && branch.IsTerminator()
    ensures Runs(code, m, m1, w)
    ensures var Value(n, st1) := EvalExpr(e, env, st, w);
            && ExecTerminator(branch, m1) == Run(if n != 0 then yes else no, 0, m1)
            && Mirrors(m1, env, st1, s.locals)
  {
    hide EmitExpr, Related;
    var v := EmitExpr(s, q, e);
    var l := EmitLoad(v.regs, v.val);
    var test := ICmp(l.regs, INe, l.val, Const(TypeOf(l.val), 0));
    code, branch := v.instrs + l.instrs + [test], CondBr(Reg(l.regs, I1), yes, no);
    TypedParts(code, [branch]);
    TypedParts(v.instrs + l.instrs, [test]);
    TypedParts(v.instrs, l.instrs);
    var n := EvalExpr(e, env, st, w).n;
    var m2 := ExprMeans(s, q, e, env, st, w, m);
    var m3 := LoadMeans(v.regs, v.val, e, s.locals, n, m2, w);
    m1 := m3.(regs := m3.regs[l.regs := Truth(n != 0)]);
    DefMeans(test, Truth(n != 0), m3, w);
    RunsThen(v.instrs, l.instrs, m, m2, m3, w);
    RunsThen(v.instrs + l.instrs, [test], m, m3, m1, w);
  }

  /** A condition sends the machine to the start of one of two blocks. */
  lemma ConditionMeans(p: seq<Block>, b: Builder, e: Expr, yes: nat, no: nat, env: Env, st: CState, w: World,
                       m: Machine, ret: Ty)
    returns (k: nat, m1: Machine)
    requires var v := EmitCondition(ScopeOf(b), b.regs, e, yes, no);
             v.Code? && Contains(p, AppendCode(b, v))
    requires Ready(p, b, env, st, m, ret) && Faithful(e, b.sigs)
    requires EvalExpr(e, env, st, w).Value?
    ensures var Value(n, st1) := EvalExpr(e, env, st, w);
            && k > 0
            && Reaches(p, w, At(b, m), k, Run(if n != 0 then yes else no, 0, m1))
            && Ready(p, b, env, st1, m1, ret)
  {
    hide EmitExpr, EmitCondition, Related, Steps;
    var v := EmitCondition(ScopeOf(b), b.regs, e, yes, no);
    assert Contains(p, Append(b, v.instrs));
    CodeTyped(p, b, v.instrs, ret);
    var code, branch;
    code, branch, m1 := TestMeans(ScopeOf(b), b.regs, e, yes, no, env, st, w, m);
    CodeThenTerminator(p, b, code, branch, m, m1, w);
    k := |code| + 1;
  }

  /** A condition that waits for a call. */
  lemma ConditionWaits(p: seq<Block>, b: Builder, e: Expr, yes: nat, no: nat, env: Env, st: CState, w: World,
                       m: Machine, ret: Ty, fuel: nat)
    returns (k: nat, c: Config)
    requires var v := EmitCondition(ScopeOf(b), b.regs, e, yes, no);
             v.Code? && Contains(p, AppendCode(b, v))
    requires Ready(p, b, env, st, m, ret) && Faithful(e, b.sigs)
    requires EvalExpr(e, env, st, w).Pending?
    ensures k >= fuel && Reaches(p, w, At(b, m), k, c) && c.Run?
  {
    hide EmitExpr, EmitLoad, Related, Steps, WellTyped, CodeWaits;
    var v := EmitExpr(ScopeOf(b), b.regs, e);
    var all := EmitCondition(ScopeOf(b), b.regs, e, yes, no).instrs;
    var rest := all[|v.instrs|..];
    assert all == v.instrs + rest;
    assert Contains(p, Append(b, all));
    CodeTyped(p, b, all, ret);
    TypedParts(v.instrs, rest);
    ExprWaits(ScopeOf(b), b.regs, e, env, st, w, m);
    WaitsFirst(v.instrs, rest, m, w);
    k, c := WaitsInPlace(p, b, all, m, w, fuel);
  }

  lemma ExprStmtMeans(p: seq<Block>, b: Builder, e: Expr, env: Env, st: CState, w: World, fuel: nat, m: Machine,
                      ret: Ty)
    returns (k: nat, c: Config)
    requires EmitStmt(b, ExprStmt(e)).Ok? && Contains(p, EmitStmt(b, ExprStmt(e)).b)
    requires Ready(p, b, env, st, m, ret) && Faithful(e, b.sigs) && !Terminated(b)
    ensures Done(p, EmitStmt(b, ExprStmt(e)).b, env, EvalStmt(ExprStmt(e), env, st, w, fuel), w, At(b, m), fuel, k, c)
  {
    hide EmitExpr, Related, Steps;
    var v := EmitExpr(ScopeOf(b), b.regs, e);
    assert EmitStmt(b, ExprStmt(e)) == Ok(AppendCode(b, v));
    assert Contains(p, Append(b, v.instrs));
    CodeTyped(p, b, v.instrs, ret);
    k, c := 0, Broken;
    if EvalExpr(e, env, st, w).Pending? {
      ExprWaits(ScopeOf(b), b.regs, e, env, st, w, m);
      k, c := WaitsInPlace(p, b, v.instrs, m, w, fuel);
    }
    if EvalExpr(e, env, st, w).Value? {
      var m1 := ExprMeans(ScopeOf(b), b.regs, e, env, st, w, m);
      CodeInPlace(p, b, v.instrs, m, m1, w);
      k, c := |v.instrs|, At(Append(b, v.instrs), m1);
    }
  }

  // ----- whole statements -----

  lemma {:induction false} StmtMeans(p: seq<Block>, b: Builder, s: Stmt, env: Env, st: CState, w: World, fuel: nat,
                                     m: Machine, ret: Ty)
    returns (k: nat, c: Config)
    requires EmitStmt(b, s).Ok? && Contains(p, EmitStmt(b, s).b)
    requires Ready(p, b, env, st, m, ret) && Inside(s, env, b.sigs) && !Terminated(b)
    ensures Done(p, EmitStmt(b, s).b, env, EvalStmt(s, env, st, w, fuel), w, At(b, m), fuel, k, c)
    decreases fuel, s, 2
  {
    hide Steps;
    match s
    case Compound(body) =>
      k, c := SeqMeans(p, b, body, env, st, w, fuel, m, ret);
      LeaveBlock(p, b, EmitSeq(b, body).b, env, EvalSeq(body, env, st, w, fuel), w, At(b, m), fuel, k, c);
    case OtherStmt(children) =>
      Stands(p, w, At(b, m));
      k, c := 0, At(b, m);
    case Return(None) =>
      TerminatorInPlace(p, b, RetVoid, m, w);
      k, c := 1, Halt(None, st.trace);
    case Return(Some(e)) => k, c := ReturnMeans(p, b, e, env, st, w, fuel, m, ret);
    case Decl(x, init) => k, c := DeclMeans(p, b, x, init, env, st, w, fuel, m, ret);
    case ExprStmt(e) =>
      k, c := ExprStmtMeans(p, b, e, env, st, w, fuel, m, ret);
    case If(cond, t, els) => k, c := IfMeans(p, b, cond, t, els, env, st, w, fuel, m, ret);
    case While(cond, body) => k, c := WhileMeans(p, b, cond, body, env, st, w, fuel, m, ret);
  }

  /** Leaving a block drops its own names and nothing else. */
  lemma LeaveBlock(p: seq<Block>, a: Builder, b: Builder, env: Env, r: Outcome, w: World, start: Config,
                   fuel: nat, k: nat, c: Config)
    requires Done(p, b, env, r, w, start, fuel, k, c)
    ensures Done(p, b, env, LeaveScope(env, r), w, start, fuel, k, c)
  {
  }

  lemma {:induction false} SeqMeans(p: seq<Block>, b: Builder, ss: seq<Stmt>, env: Env, st: CState, w: World,
                                    fuel: nat, m: Machine, ret: Ty)
    returns (k: nat, c: Config)
    requires EmitSeq(b, ss).Ok? && Contains(p, EmitSeq(b, ss).b)
    requires Ready(p, b, env, st, m, ret) && InsideSeq(ss, env, b.sigs) && !Terminated(b)
    ensures Done(p, EmitSeq(b, ss).b, env, EvalSeq(ss, env, st, w, fuel), w, At(b, m), fuel, k, c)
    decreases fuel, ss, 0
  {
    hide Steps;
    if ss == [] {
      Stands(p, w, At(b, m));
      k, c := 0, At(b, m);
    } else {
      var b1 := EmitStmt(b, ss[0]).b;
      ContainsEarlier(p, b1, EmitSeq(b1, ss[1..]).b);
      k, c := StmtMeans(p, b, ss[0], env, st, w, fuel, m, ret);
      var r := EvalStmt(ss[0], env, st, w, fuel);
      if r.Normal? {
        LocalsKept(b, ss[0], env.Keys);
        NewNames(ss[0], env, st, w, fuel);
        var k1, c1 := SeqMeans(p, b1, ss[1..], r.env, r.st, w, fuel, c.m, ret);
        DoneLater(p, EmitSeq(b, ss).b, env, r.env, EvalSeq(ss[1..], r.env, r.st, w, fuel), w, At(b, m), k, c,
                  fuel, fuel, k1, c1);
        k, c := k + k1, c1;
      }
    }
  }

  /** A statement that ends normally adds only the name it declares. */
  lemma NewNames(s: Stmt, env: Env, st: CState, w: World, fuel: nat)
    requires EvalStmt(s, env, st, w, fuel).Normal?
    ensures EvalStmt(s, env, st, w, fuel).env.Keys == env.Keys + Declared(s)
  {
    match s
    case While(c, b) => WhileNames(c, b, env, st, w, fuel);
    case _ =>
  }

  lemma {:induction false} WhileNames(c: Expr, b: Stmt, env: Env, st: CState, w: World, fuel: nat)
    requires EvalStmt(While(c, b), env, st, w, fuel).Normal?
    ensures EvalStmt(While(c, b), env, st, w, fuel).env == env
    decreases fuel
  {
    var st1 := EvalExpr(c, env, st, w).st;
    if EvalExpr(c, env, st, w).n != 0 {
      WhileNames(c, b, env, EvalStmt(b, env, st1, w, fuel - 1).st, w, fuel - 1);
    }
  }

  /** A branch statement followed by its jump. */
  lemma {:induction false} BranchMeans(p: seq<Block>, b: Builder, s: Stmt, target: nat, env: Env, st: CState, w: World,
                                       fuel: nat, m: Machine, ret: Ty)
    returns (k: nat, c: Config)
    requires EmitBranch(b, s, target).Ok? && Contains(p, EmitBranch(b, s, target).b)
    requires Ready(p, b, env, st, m, ret) && Inside(s, env, b.sigs) && !Terminated(b)
    ensures Joins(p, EmitBranch(b, s, target).b, target, env, EvalStmt(s, env, st, w, fuel), w, At(b, m), fuel, k, c)
    decreases fuel, s, 3
  {
    hide Steps, Extends, Typed;
    var b1 := EmitStmt(b, s).b;
    ContainsEarlier(p, b1, Close(b1, target));
    k, c := StmtMeans(p, b, s, env, st, w, fuel, m, ret);
    var r := EvalStmt(s, env, st, w, fuel);
    if r.Normal? {
      TerminatorInPlace(p, b1, Br(target), c.m, w);
      RelatedOuter(env, r.env, r.st, b1.locals, b1.locals, c.m.mem);
      var c1 := Run(target, 0, c.m);
      ReachesThen(p, w, At(b, m), k, c, 1, c1);
      k, c := k + 1, c1;
    }
  }

  /** Like `Done`, except that a normal outcome leads to the start of block `target` with
      the names of the branch dropped. */
  ghost predicate Joins(p: seq<Block>, b: Builder, target: nat, env: Env, r: Outcome, w: World, start: Config,
                        fuel: nat, k: nat, c: Config)
  {
    match r
    case Normal(_, st1) =>
      && Reaches(p, w, start, k, c)
      && c.Run? && c == Run(target, 0, c.m) && Mirrors(c.m, env, st1, b.locals)
    case _ => Done(p, b, env, r, w, start, fuel, k, c)
  }

  /** The stages of an `if`: the insert point of the `then` branch, then the builder once
      that branch is closed. All three blocks of the `if` start out empty. */
  ghost predicate IfParts(b: Builder, cond: Expr, t: Stmt, els: Option<Stmt>, b1: Builder, b2: Builder) {
    var n := |b.blocks|;
    && EmitCondition(ScopeOf(b), b.regs, cond, n, n + 1).Code? && b1 == IfEntry(b, cond)
    && EmitBranch(b1, t, n + 2) == Ok(b2) && Extends(b1, b2)
    && EmitStmt(b, If(cond, t, els)) == EmitElse(b, b2, n, els)
    && n + 2 < |b1.blocks| && Current(b1) == []
    && b2.blocks[n + 1] == [] && b2.blocks[n + 2] == []
  }

  lemma IfSplit(b: Builder, cond: Expr, t: Stmt, els: Option<Stmt>) returns (b1: Builder, b2: Builder)
    requires EmitStmt(b, If(cond, t, els)).Ok?
    ensures IfParts(b, cond, t, els, b1, b2)
  {
    assert EmitStmt(b, If(cond, t, els)) == EmitIf(b, cond, t, els);
    var n := |b.blocks|;
    b1 := IfEntry(b, cond);
    b2 := EmitBranch(b1, t, n + 2).b;
    assert NewBlocks(b).blocks[n] == NewBlocks(b).blocks[n + 1] == NewBlocks(b).blocks[n + 2] == [];
    assert b1.blocks[n + 1] == b1.blocks[n + 2] == [];
  }

  /** The builder after an `if` stands in the empty block where the branches join, and
      the names visible before it still have their slots. */
  lemma IfEnd(b: Builder, cond: Expr, t: Stmt, els: Option<Stmt>, b1: Builder, b2: Builder, scope: set<string>)
    returns (last: Builder)
    requires EmitStmt(b, If(cond, t, els)).Ok? && IfParts(b, cond, t, els, b1, b2)
    requires LocalsOk(b) && Unshadowed(If(cond, t, els), scope)
    ensures var n, final := |b.blocks|, EmitStmt(b, If(cond, t, els)).b;
            && n + 2 < |last.blocks| && final == EnterBlock(last, n + 2) && Current(final) == []
            && Extends(EnterBlock(b2, n + 1), last)
            && (els.None? ==> last == Close(EnterBlock(b2, n + 1), n + 2))
            && (els.Some? ==> EmitBranch(EnterBlock(b2, n + 1), els.value, n + 2) == Ok(last))
            && b1.sigs == b2.sigs == b.sigs && LocalsOk(b1) && LocalsOk(EnterBlock(b2, n + 1))
            && SameLocals(scope, b.locals, b1.locals) && SameLocals(scope, b.locals, b2.locals)
            && SameLocals(scope, b2.locals, final.locals)
  {
    hide EmitBranch, EmitCondition;
    var n := |b.blocks|;
    var b3 := EnterBlock(b2, n + 1);
    LocalsKeptBranch(b1, t, n + 2, scope);
    if els.None? {
      last := Close(b3, n + 2);
    } else {
      last := EmitBranch(b3, els.value, n + 2).b;
      LocalsKeptBranch(b3, els.value, n + 2, scope);
    }
    assert last.blocks[n + 2] == [];
  }

  lemma InsideIf(cond: Expr, t: Stmt, els: Option<Stmt>, env: Env, sigs: Sigs)
    requires Inside(If(cond, t, els), env, sigs)
    ensures Faithful(cond, sigs) && Inside(t, env, sigs) && (els.Some? ==> Inside(els.value, env, sigs))
  {
  }

  /** Only the table of locals matters for being ready. */
  lemma ReadyThere(p: seq<Block>, a: Builder, b: Builder, env: Env, st: CState, m: Machine, ret: Ty)
    requires Ready(p, a, env, st, m, ret)
    requires a.sigs == b.sigs && LocalsOk(b) && SameLocals(env.Keys, a.locals, b.locals)
    ensures Ready(p, b, env, st, m, ret)
  {
  }

  /** Everything an `if` emits is part of the finished function. */
  lemma IfContained(p: seq<Block>, b: Builder, cond: Expr, t: Stmt, els: Option<Stmt>, b1: Builder, b2: Builder,
                    last: Builder)
    requires EmitStmt(b, If(cond, t, els)).Ok? && IfParts(b, cond, t, els, b1, b2)
    requires Extends(EnterBlock(b2, |b.blocks| + 1), last) && |b.blocks| + 2 < |last.blocks|
    requires EmitStmt(b, If(cond, t, els)).b == EnterBlock(last, |b.blocks| + 2)
    requires Contains(p, EmitStmt(b, If(cond, t, els)).b)
    ensures Contains(p, last) && Contains(p, b2)
    ensures Contains(p, AppendCode(NewBlocks(b), EmitCondition(ScopeOf(b), b.regs, cond, |b.blocks|, |b.blocks| + 1)))
  {
    hide EmitStmt, EmitBranch, EmitCondition;
    assert Contains(p, last);
    ContainsEarlier(p, EnterBlock(b2, |b.blocks| + 1), last);
    assert Contains(p, b2);
    ContainsEarlier(p, b1, b2);
  }

  lemma {:induction false} IfMeans(p: seq<Block>, b: Builder, cond: Expr, t: Stmt, els: Option<Stmt>, env: Env,
                                   st: CState, w: World, fuel: nat, m: Machine, ret: Ty)
    returns (k: nat, c: Config)
    requires EmitStmt(b, If(cond, t, els)).Ok? && Contains(p, EmitStmt(b, If(cond, t, els)).b)
    requires Ready(p, b, env, st, m, ret) && Inside(If(cond, t, els), env, b.sigs)
    ensures Done(p, EmitStmt(b, If(cond, t, els)).b, env, EvalStmt(If(cond, t, els), env, st, w, fuel), w,
                 At(b, m), fuel, k, c)
    decreases fuel, If(cond, t, els), 1
  {
    hide EmitStmt, EmitBranch, EmitCondition, EmitElse, EvalStmt, EvalExpr, ElseOutcome, Mirrors, SameLocals;
    hide Contains, Typed, Related, Steps;
    var n := |b.blocks|;
    InsideIf(cond, t, els, env, b.sigs);
    var b1, b2 := IfSplit(b, cond, t, els);
    var last := IfEnd(b, cond, t, els, b1, b2, env.Keys);
    IfContained(p, b, cond, t, els, b1, b2, last);
    IfEval(cond, t, els, env, st, w, fuel);
    ReadyThere(p, b, NewBlocks(b), env, st, m, ret);
    k, c := 0, Broken;
    if EvalExpr(cond, env, st, w).Pending? {
      k, c := ConditionWaits(p, NewBlocks(b), cond, n, n + 1, env, st, w, m, ret, fuel);
    }
    if EvalExpr(cond, env, st, w).Value? {
      var Value(v, st1) := EvalExpr(cond, env, st, w);
      var k1, m1 := ConditionMeans(p, NewBlocks(b), cond, n, n + 1, env, st, w, m, ret);
      var start := Run(if v != 0 then n else n + 1, 0, m1);
      var k2, c2;
      if v != 0 {
        ReadyThere(p, NewBlocks(b), b1, env, st1, m1, ret);
        k2, c2 := ThenMeans(p, b1, b2, EmitStmt(b, If(cond, t, els)).b, t, env, st1, w, fuel, m1, ret);
      } else {
        ReadyThere(p, NewBlocks(b), EnterBlock(b2, n + 1), env, st1, m1, ret);
        k2, c2 := ElseMeans(p, EnterBlock(b2, n + 1), EmitStmt(b, If(cond, t, els)).b, els, env, st1, w, fuel, m1, ret);
      }
      k, c := k1 + k2, c2;
      DoneLater(p, EnterBlock(last, n + 2), env, env, LeaveScope(env, ArmOutcome(t, els, env, v != 0, st1, w, fuel)), w,
                At(b, m), k1, start, fuel, fuel, k2, c2);
    }
  }

  lemma IfEval(cond: Expr, t: Stmt, els: Option<Stmt>, env: Env, st: CState, w: World, fuel: nat)
    ensures EvalExpr(cond, env, st, w).Undefined? ==> EvalStmt(If(cond, t, els), env, st, w, fuel) == Wrong
    ensures EvalExpr(cond, env, st, w).Pending? ==> EvalStmt(If(cond, t, els), env, st, w, fuel) == OutOfFuel
    ensures EvalExpr(cond, env, st, w).Value? ==>
              var Value(v, st1) := EvalExpr(cond, env, st, w);
              EvalStmt(If(cond, t, els), env, st, w, fuel) ==
              LeaveScope(env, ArmOutcome(t, els, env, v != 0, st1, w, fuel))
  {
  }

  ghost function ArmOutcome(t: Stmt, els: Option<Stmt>, env: Env, taken: bool, st: CState, w: World, fuel: nat): Outcome
  {
    if taken then EvalStmt(t, env, st, w, fuel) else ElseOutcome(els, env, st, w, fuel)
  }

  ghost function ElseOutcome(els: Option<Stmt>, env: Env, st: CState, w: World, fuel: nat): Outcome
  {
    if els.Some? then EvalStmt(els.value, env, st, w, fuel) else Normal(env, st)
  }

  /** The `then` side, from its block to the end of the `if`. */
  lemma {:induction false} ThenMeans(p: seq<Block>, b1: Builder, b2: Builder, final: Builder, t: Stmt, env: Env,
                                     st: CState, w: World, fuel: nat, m: Machine, ret: Ty)
    returns (k: nat, c: Config)
    requires Current(b1) == [] && EmitBranch(b1, t, final.cur) == Ok(b2) && Contains(p, b2)
    requires Current(final) == [] && SameLocals(env.Keys, b2.locals, final.locals)
    requires Ready(p, b1, env, st, m, ret) && Inside(t, env, b1.sigs)
    ensures Done(p, final, env, LeaveScope(env, EvalStmt(t, env, st, w, fuel)), w, Run(b1.cur, 0, m), fuel, k, c)
    decreases fuel, t, 4
  {
    hide EmitBranch, EvalStmt, Steps, Extends, Contains, Related, Typed, Inside, SameLocals, Ready;
    k, c := BranchMeans(p, b1, t, final.cur, env, st, w, fuel, m, ret);
    JoinMeans(p, final, final.cur, b2, env, EvalStmt(t, env, st, w, fuel), w, Run(b1.cur, 0, m), fuel, k, c);
  }

  /** The `else` side, which is a bare jump if there is no statement. */
  lemma {:induction false} ElseMeans(p: seq<Block>, b3: Builder, final: Builder, els: Option<Stmt>, env: Env,
                                     st: CState, w: World, fuel: nat, m: Machine, ret: Ty)
    returns (k: nat, c: Config)
    requires Current(b3) == [] && Current(final) == []
    requires els.None? ==> Contains(p, Close(b3, final.cur)) && b3.locals == final.locals
    requires els.Some? ==>
               EmitBranch(b3, els.value, final.cur).Ok? && Contains(p, EmitBranch(b3, els.value, final.cur).b)
                           && EmitBranch(b3, els.value, final.cur).b.locals == final.locals
    requires Ready(p, b3, env, st, m, ret) && (els.Some? ==> Inside(els.value, env, b3.sigs))
    ensures Done(p, final, env, LeaveScope(env, ElseOutcome(els, env, st, w, fuel)), w, Run(b3.cur, 0, m), fuel, k, c)
    decreases fuel, els, 5
  {
    hide EmitBranch, EvalStmt, Steps, Extends, Contains, Related, Typed, Inside;
    if els.None? {
      TerminatorInPlace(p, b3, Br(final.cur), m, w);
      k, c := 1, Run(final.cur, 0, m);
    } else {
      k, c := BranchMeans(p, b3, els.value, final.cur, env, st, w, fuel, m, ret);
      JoinMeans(p, final, final.cur, EmitBranch(b3, els.value, final.cur).b, env,
                EvalStmt(els.value, env, st, w, fuel), w, Run(b3.cur, 0, m), fuel, k, c);
    }
  }

  /** Where both sides of an `if` come together, the branch's own names are gone. */
  lemma JoinMeans(p: seq<Block>, final: Builder, target: nat, last: Builder, env: Env, r: Outcome, w: World,
                  start: Config, fuel: nat, k: nat, c: Config)
    requires Current(final) == [] && final.cur == target
    requires SameLocals(env.Keys, last.locals, final.locals)
    requires Joins(p, last, target, env, r, w, start, fuel, k, c)
    ensures Done(p, final, env, LeaveScope(env, r), w, start, fuel, k, c)
  {
  }

  /** The stages of a loop: the insert points of its condition and of its body, then the
      builder once the body is closed. */
  ghost predicate LoopParts(b: Builder, cond: Expr, body: Stmt, b1: Builder, b2: Builder, b3: Builder) {
    var n := |b.blocks|;
    && b1 == LoopHead(b)
    && EmitCondition(ScopeOf(b), b.regs, cond, n + 1, n + 2).Code? && b2 == LoopEntry(b, cond)
    && EmitBranch(b2, body, n) == Ok(b3) && Extends(b2, b3)
    && n + 2 < |b1.blocks| && Current(b1) == [] && Current(b2) == [] && b3.blocks[n + 2] == []
    && EmitStmt(b, While(cond, body)) == Ok(EnterBlock(b3, n + 2))
  }

  lemma LoopSplit(b: Builder, cond: Expr, body: Stmt) returns (b1: Builder, b2: Builder, b3: Builder)
    requires EmitStmt(b, While(cond, body)).Ok?
    ensures LoopParts(b, cond, body, b1, b2, b3)
  {
    assert EmitStmt(b, While(cond, body)) == EmitWhile(b, cond, body);
    var n := |b.blocks|;
    b1, b2 := LoopHead(b), LoopEntry(b, cond);
    b3 := EmitBranch(b2, body, n).b;
    assert NewBlocks(b).blocks[n] == NewBlocks(b).blocks[n + 1] == NewBlocks(b).blocks[n + 2] == [];
    assert b1.blocks[n] == b1.blocks[n + 1] == b1.blocks[n + 2] == [];
    assert b2.blocks[n + 1] == b2.blocks[n + 2] == [];
  }

  lemma {:induction false} WhileMeans(p: seq<Block>, b: Builder, cond: Expr, body: Stmt, env: Env, st: CState,
                                      w: World, fuel: nat, m: Machine, ret: Ty)
    returns (k: nat, c: Config)
    requires EmitStmt(b, While(cond, body)).Ok? && Contains(p, EmitStmt(b, While(cond, body)).b)
    requires Ready(p, b, env, st, m, ret) && Inside(While(cond, body), env, b.sigs)
    ensures Done(p, EmitStmt(b, While(cond, body)).b, env, EvalStmt(While(cond, body), env, st, w, fuel), w,
                 At(b, m), fuel, k, c)
    decreases fuel, While(cond, body), 1
  {
    hide EmitBranch, EmitStmt, EmitCondition, EvalStmt, Steps;
    var n, final := |b.blocks|, EmitStmt(b, While(cond, body)).b;
    var b1, b2, b3 := LoopSplit(b, cond, body);
    assert Contains(p, b3);
    ContainsEarlier(p, b2, b3);
    assert Contains(p, AppendCode(b1, EmitCondition(ScopeOf(b), b.regs, cond, n + 1, n + 2)));
    ContainsEarlier(p, b1, AppendCode(b1, EmitCondition(ScopeOf(b), b.regs, cond, n + 1, n + 2)));
    TerminatorInPlace(p, NewBlocks(b), Br(n), m, w);
    var k1, c1 := LoopMeans(p, b, cond, body, b1, b2, b3, env, st, w, fuel, m, ret);
    DoneLater(p, final, env, env, EvalStmt(While(cond, body), env, st, w, fuel), w, At(b, m), 1, Run(n, 0, m),
              fuel, fuel, k1, c1);
    k, c := 1 + k1, c1;
  }

  lemma LoopEval(cond: Expr, body: Stmt, env: Env, st: CState, w: World, fuel: nat)
    ensures var r := EvalStmt(While(cond, body), env, st, w, fuel);
            && (fuel == 0 ==> r == OutOfFuel)
            && (fuel > 0 && EvalExpr(cond, env, st, w).Undefined? ==> r == Wrong)
            && (fuel > 0 && EvalExpr(cond, env, st, w).Pending? ==> r == OutOfFuel)
            && (fuel > 0 && EvalExpr(cond, env, st, w).Value? ==>
                  var Value(v, st1) := EvalExpr(cond, env, st, w);
                  r == if v == 0 then Normal(env, st1) else RoundOutcome(cond, body, env, st1, w, fuel))
  {
  }

  lemma InsideLoop(cond: Expr, body: Stmt, env: Env, sigs: Sigs)
    requires Inside(While(cond, body), env, sigs)
    ensures Faithful(cond, sigs) && Inside(body, env, sigs)
  {
  }

  /** The loop from the start of its condition block, once per unit of fuel. */
  lemma {:induction false} LoopMeans(p: seq<Block>, b: Builder, cond: Expr, body: Stmt,
                                     b1: Builder, b2: Builder, b3: Builder, env: Env, st: CState,
                                     w: World, fuel: nat, m: Machine, ret: Ty)
    returns (k: nat, c: Config)
    requires LoopParts(b, cond, body, b1, b2, b3) && Contains(p, b3) && Contains(p, b2)
    requires Ready(p, b, env, st, m, ret) && Inside(While(cond, body), env, b.sigs)
    ensures Done(p, EnterBlock(b3, |b.blocks| + 2), env, EvalStmt(While(cond, body), env, st, w, fuel), w,
                 Run(|b.blocks|, 0, m), fuel, k, c)
    decreases fuel, body, 6
  {
    hide EmitCondition, EmitBranch, EmitStmt, EvalStmt, EvalExpr, RoundOutcome, FaithfulStmt, Steps, Mirrors, Typed,
         SameLocals;
    var n := |b.blocks|;
    var start, final := Run(n, 0, m), EnterBlock(b3, n + 2);
    LoopEval(cond, body, env, st, w, fuel);
    InsideLoop(cond, body, env, b.sigs);
    Stands(p, w, start);
    k, c := 0, start;
    if fuel > 0 && EvalExpr(cond, env, st, w).Pending? {
      k, c := ConditionWaits(p, b1, cond, n + 1, n + 2, env, st, w, m, ret, fuel);
    }
    if fuel > 0 && EvalExpr(cond, env, st, w).Value? {
      var Value(v, st1) := EvalExpr(cond, env, st, w);
      var k1, m1 := ConditionMeans(p, b1, cond, n + 1, n + 2, env, st, w, m, ret);
      if v == 0 {
        LoopExits(b, cond, body, b1, b2, b3, env, st1, m1);
        k, c := k1, Run(n + 2, 0, m1);
      } else {
        var r := RoundOutcome(cond, body, env, st1, w, fuel);
        var k2, c2 := RoundMeans(p, b, cond, body, b1, b2, b3, env, st1, w, fuel, m1, ret);
        DoneLater(p, final, env, env, r, w, start, k1, Run(n + 1, 0, m1), fuel - 1, fuel, k2, c2);
        k, c := k1 + k2, c2;
      }
    }
  }

  /** Leaving the loop, the names visible before it still have their slots. */
  lemma LoopExits(b: Builder, cond: Expr, body: Stmt, b1: Builder, b2: Builder, b3: Builder, env: Env, st: CState,
                  m: Machine)
    requires LoopParts(b, cond, body, b1, b2, b3)
    requires LocalsOk(b) && Unshadowed(body, env.Keys) && Mirrors(m, env, st, b.locals)
    ensures Mirrors(m, env, st, b3.locals)
    ensures At(EnterBlock(b3, |b.blocks| + 2), m) == Run(|b.blocks| + 2, 0, m)
    ensures !Terminated(EnterBlock(b3, |b.blocks| + 2))
  {
    LocalsKeptBranch(b2, body, |b.blocks|, env.Keys);
    RelatedOuter(env, env, st, b.locals, b3.locals, m.mem);
  }

  ghost function RoundOutcome(cond: Expr, body: Stmt, env: Env, st: CState, w: World, fuel: nat): Outcome
    requires fuel > 0
  {
    match EvalStmt(body, env, st, w, fuel - 1)
    case Normal(_, st1) => EvalStmt(While(cond, body), env, st1, w, fuel - 1)
    case other => other
  }

  /** Once round the loop, the visible names are in the slots they had before it. */
  lemma MirrorsBack(env: Env, st: CState, m: Machine, st1: CState, m1: Machine,
                    before: map<string, nat>, after: map<string, nat>)
    requires Mirrors(m, env, st, before) && Mirrors(m1, env, st1, after)
    requires SameLocals(env.Keys, before, after)
    ensures Mirrors(m1, env, st1, before)
  {
    forall x | x in env ensures x in before { assert Cell(x, env, st, before, m.mem); }
    RelatedOuter(env, env, st1, after, before, m1.mem);
  }

  /** The body, then whatever the loop does after it. */
  lemma {:induction false} RoundMeans(p: seq<Block>, b: Builder, cond: Expr, body: Stmt,
                                      b1: Builder, b2: Builder, b3: Builder, env: Env, st: CState,
                                      w: World, fuel: nat, m: Machine, ret: Ty)
    returns (k: nat, c: Config)
    requires fuel > 0
    requires LoopParts(b, cond, body, b1, b2, b3) && Contains(p, b3) && Contains(p, b2)
    requires Ready(p, b, env, st, m, ret) && Inside(While(cond, body), env, b.sigs)
    ensures Done(p, EnterBlock(b3, |b.blocks| + 2), env, RoundOutcome(cond, body, env, st, w, fuel), w,
                 Run(|b.blocks| + 1, 0, m), fuel - 1, k, c)
    decreases fuel, body, 5
  {
    hide EmitCondition, EmitBranch, EmitStmt, EvalStmt, EvalExpr, Steps, Mirrors, Contains, Typed, SameLocals;
    var n := |b.blocks|;
    var r := EvalStmt(body, env, st, w, fuel - 1);
    InsideLoop(cond, body, env, b.sigs);
    LocalsKeptBranch(b2, body, n, env.Keys);
    k, c := BranchMeans(p, b2, body, n, env, st, w, fuel - 1, m, ret);
    if r.Normal? {
      MirrorsBack(env, st, m, r.st, c.m, b.locals, b3.locals);
      var k1, c1 := LoopMeans(p, b, cond, body, b1, b2, b3, env, r.st, w, fuel - 1, c.m, ret);
      DoneLater(p, EnterBlock(b3, n + 2), env, env, EvalStmt(While(cond, body), env, r.st, w, fuel - 1), w,
                Run(n + 1, 0, m), k, c, fuel - 1, fuel - 1, k1, c1);
      k, c := k + k1, c1;
    }
  }
}
