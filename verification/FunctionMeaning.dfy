/** Meaning preservation for whole functions, and where it stops. */
module FunctionMeaning {
  import opened Wrappers
  import opened CSource
  import opened LlvmIr
  import opened Emission
  import opened ExprMeaning
  import opened StmtMeaning

  /** The functions of the documented fragment on which the converter's shortcuts cannot
      be observed; every part of this can be checked on the source text. */
  predicate InFragment(f: Function, sigs: Sigs) {
    && f.body.Some?
    && FaithfulStmt(f.body.value, sigs)
    && Unshadowed(f.body.value, set x | x in f.params)
    && SigsOk(sigs)
  }

  function ArgRegs(args: seq<int>): Regs { map i: nat | i < |args| :: args[i] }

  /** A call of the emitted function: arguments in registers, at the top of the entry block. */
  function Entry(args: seq<int>, tr: seq<Event>): Config { Run(0, 0, Machine(ArgRegs(args), map[], tr)) }

  // ----- parameters -----

  lemma {:induction false} ParamEnvOf(params: seq<string>)
    ensures ParamEnv(params).Keys == set x | x in params
    ensures forall x :: x in ParamEnv(params) ==> ParamEnv(params)[x] < |params| && params[ParamEnv(params)[x]] == x
  {
    if params != [] {
      var init := params[..|params| - 1];
      ParamEnvOf(init);
      assert params == init + [params[|params| - 1]];
    }
  }

  /** Memory once the first k arguments have been spilled. */
  function Spilled(args: seq<int>, k: nat): Memory
    requires k <= |args|
  {
    map i: nat | i < k :: args[i]
  }

  lemma NoneSpilled(args: seq<int>)
    ensures Spilled(args, 0) == map[]
  {
  }

  lemma SpillMeans(args: seq<int>, tr: seq<Event>, k: nat, w: World)
    requires k < |args|
    ensures Runs([Store(Reg(k, I32), Slot(k))], Machine(ArgRegs(args), Spilled(args, k), tr),
                 Machine(ArgRegs(args), Spilled(args, k + 1), tr), w)
  {
    hide RunCode;
    assert Spilled(args, k)[k := args[k]] == Spilled(args, k + 1);
    RunsOne(Store(Reg(k, I32), Slot(k)), Machine(ArgRegs(args), Spilled(args, k), tr), w);
  }

  /** The prologue gives each parameter the slot of its own index. */
  lemma {:induction false} PrologueMeans(sigs: Sigs, params: seq<string>, args: seq<int>, tr: seq<Event>, k: nat,
                                         w: World)
    requires k <= |params| == |args|
    ensures var b := Prologue(sigs, params, k);
            && b.locals == ParamEnv(params[..k])
            && Runs(Current(b), Machine(ArgRegs(args), map[], tr),
                    Machine(ArgRegs(args), Spilled(args, k), tr), w)
    decreases k
  {
    hide Runs, Spilled, ArgRegs;
    if k == 0 {
      assert params[..0] == [];
      NoneSpilled(args);
      RunsNone(Machine(ArgRegs(args), map[], tr), w);
    } else {
      PrologueMeans(sigs, params, args, tr, k - 1, w);
      assert params[..k][..k - 1] == params[..k - 1];
      SpillMeans(args, tr, k - 1, w);
      RunsThen(Current(Prologue(sigs, params, k - 1)), [Store(Reg(k - 1, I32), Slot(k - 1))],
               Machine(ArgRegs(args), map[], tr), Machine(ArgRegs(args), Spilled(args, k - 1), tr),
               Machine(ArgRegs(args), Spilled(args, k), tr), w);
    }
  }

  lemma ParametersRelated(params: seq<string>, args: seq<int>, tr: seq<Event>)
    requires |params| == |args| && forall i :: 0 <= i < |args| ==> InI32(args[i])
    ensures Related(ParamEnv(params), CState(ParamStore(args), |args|, tr), ParamEnv(params), Spilled(args, |args|))
  {
    ParamEnvOf(params);
    var env, st := ParamEnv(params), CState(ParamStore(args), |args|, tr);
    forall x | x in env ensures Cell(x, env, st, env, Spilled(args, |args|)) { }
  }

  // ----- the whole function -----

  predicate ArgumentsOk(f: Function, args: seq<int>) {
    |args| == |f.params| && forall i :: 0 <= i < |args| ==> InI32(args[i])
  }

  /** The prologue leads to the start of the body, with the arguments in their slots. */
  lemma BodyReached(sigs: Sigs, f: Function, args: seq<int>, tr: seq<Event>, w: World)
    requires InFragment(f, sigs) && ArgumentsOk(f, args)
    requires EmitDefinition(sigs, f).Ok? && FunctionOk(EmitDefinition(sigs, f).b.blocks, RetTy(f.ret))
    ensures var p, b0 := EmitDefinition(sigs, f).b.blocks, Prologue(sigs, f.params, |f.params|);
            var m := Machine(ArgRegs(args), Spilled(args, |args|), tr);
            && Reaches(p, w, Entry(args, tr), |Current(b0)|, At(b0, m)) && !Terminated(b0)
            && EmitStmt(b0, f.body.value).Ok? && Contains(p, EmitStmt(b0, f.body.value).b)
            && Ready(p, b0, ParamEnv(f.params), CState(ParamStore(args), |args|, tr), m, RetTy(f.ret))
            && Inside(f.body.value, ParamEnv(f.params), b0.sigs)
  {
    hide EmitStmt, EvalStmt, Unshadowed, FaithfulStmt, InstrOk, Steps;
    var p, b0 := EmitDefinition(sigs, f).b.blocks, Prologue(sigs, f.params, |f.params|);
    var b1 := EmitStmt(b0, f.body.value).b;
    var m := Machine(ArgRegs(args), Spilled(args, |args|), tr);
    PrologueMeans(sigs, f.params, args, tr, |args|, w);
    assert f.params[..|args|] == f.params;
    ParamEnvOf(f.params);
    ParametersRelated(f.params, args, tr);
    assert Contains(p, b1);
    ContainsEarlier(p, b0, b1);
    assert [] + Current(b0) == Current(b0);
    RunCodeInPlace(p, 0, [], Current(b0), Entry(args, tr).m, m, w);
    OpenPrologue(b0, Entry(args, tr).m, m, w);
  }

  /** Running the emitted body from the end of the prologue. */
  lemma BodyMeans(sigs: Sigs, f: Function, args: seq<int>, tr: seq<Event>, w: World, fuel: nat)
    returns (k: nat, c: Config)
    requires InFragment(f, sigs) && ArgumentsOk(f, args)
    requires EmitDefinition(sigs, f).Ok? && FunctionOk(EmitDefinition(sigs, f).b.blocks, RetTy(f.ret))
    ensures var p := EmitDefinition(sigs, f).b.blocks;
            var b := EmitStmt(Prologue(sigs, f.params, |f.params|), f.body.value).b;
            Done(p, b, ParamEnv(f.params),
                 EvalStmt(f.body.value, ParamEnv(f.params), CState(ParamStore(args), |args|, tr), w, fuel), w,
                 Entry(args, tr), fuel, k, c)
  {
    hide At, Finish, EmitDefinition;
    BodyReached(sigs, f, args, tr, w);
    hide EmitStmt, EvalStmt, Steps, Ready, Inside, Contains, InFragment, FunctionOk, Reaches, Prologue, Related, Done;
    var p, b0 := EmitDefinition(sigs, f).b.blocks, Prologue(sigs, f.params, |f.params|);
    var b1 := EmitStmt(b0, f.body.value).b;
    var m := Machine(ArgRegs(args), Spilled(args, |args|), tr);
    var env, st := ParamEnv(f.params), CState(ParamStore(args), |args|, tr);
    var k1, c1 := StmtMeans(p, b0, f.body.value, env, st, w, fuel, m, RetTy(f.ret));
    DoneLater(p, b1, env, env, EvalStmt(f.body.value, env, st, w, fuel), w, Entry(args, tr), |Current(b0)|, At(b0, m),
              fuel, fuel, k1, c1);
    k, c := |Current(b0)| + k1, c1;
  }

  lemma OpenPrologue(b: Builder, m: Machine, m1: Machine, w: World)
    requires Runs(Current(b), m, m1, w)
    ensures !Terminated(b)
  {
  }

  /** Simulation: a call that returns returns the same value after the same calls, and a
      call that is not over after `fuel` loop iterations, or waits for an answer, is still
      running after `fuel` steps. */
  lemma CallMeans(sigs: Sigs, f: Function, args: seq<int>, tr: seq<Event>, w: World, fuel: nat) returns (k: nat)
    requires InFragment(f, sigs) && ArgumentsOk(f, args)
    requires EmitDefinition(sigs, f).Ok? && FunctionOk(EmitDefinition(sigs, f).b.blocks, RetTy(f.ret))
    ensures var c := Steps(EmitDefinition(sigs, f).b.blocks, Entry(args, tr), w, k);
            match EvalCall(f, args, tr, w, fuel)
            case Returned(v, after) => c == Halt(v, after)
            case OutOfFuel => c.Run? && k >= fuel
            case _ => true
  {
    hide EmitStmt, EvalStmt, Unshadowed, FaithfulStmt, InstrOk, Steps;
    var p, b0 := EmitDefinition(sigs, f).b.blocks, Prologue(sigs, f.params, |f.params|);
    var b1 := EmitStmt(b0, f.body.value).b;
    var c;
    k, c := BodyMeans(sigs, f, args, tr, w, fuel);
    var r := EvalStmt(f.body.value, ParamEnv(f.params), CState(ParamStore(args), |args|, tr), w, fuel);
    if r.Normal? {
      var i := if f.ret == CVoid then RetVoid else Ret(Const(I32, 0));
      assert Finish(b1, f.ret) == Append(b1, [i]);
      TerminatorInPlace(p, b1, i, c.m, w);
      ReachesThen(p, w, Entry(args, tr), k, c, 1, ExecTerminator(i, c.m));
      k := k + 1;
    }
  }

  lemma CallIsFinal(f: Function, args: seq<int>, tr: seq<Event>, w: World, fuel: nat)
    requires f.body.Some?
    ensures !EvalCall(f, args, tr, w, fuel).Normal?
  {
  }

  ghost predicate Returns(f: Function, args: seq<int>, tr: seq<Event>, w: World, v: Option<int>, after: seq<Event>)
    requires f.body.Some?
  {
    exists fuel: nat :: EvalCall(f, args, tr, w, fuel) == Returned(v, after)
  }

  ghost predicate Halts(blocks: seq<Block>, args: seq<int>, tr: seq<Event>, w: World, v: Option<int>, after: seq<Event>)
  {
    exists k: nat :: Steps(blocks, Entry(args, tr), w, k) == Halt(v, after)
  }

  /** C leaves the behaviour of this call defined, however long it runs. */
  ghost predicate DefinedCall(f: Function, args: seq<int>, tr: seq<Event>, w: World)
    requires f.body.Some?
  {
    forall fuel: nat :: !EvalCall(f, args, tr, w, fuel).Wrong?
  }

  /** Meaning preservation for one function, whatever its calls do: for every function of the
      fragment whose emission succeeds and verifies, and every call C defines, the emitted
      blocks return a value after a trace of calls exactly when the C function does. In
      particular they run forever exactly when it does. */
  lemma MeaningPreserved(sigs: Sigs, f: Function, args: seq<int>, tr: seq<Event>, w: World, v: Option<int>,
                         after: seq<Event>)
    requires InFragment(f, sigs) && ArgumentsOk(f, args) && DefinedCall(f, args, tr, w)
    requires EmitDefinition(sigs, f).Ok? && FunctionOk(EmitDefinition(sigs, f).b.blocks, RetTy(f.ret))
    ensures Halts(EmitDefinition(sigs, f).b.blocks, args, tr, w, v, after) <==> Returns(f, args, tr, w, v, after)
  {
    var p := EmitDefinition(sigs, f).b.blocks;
    if Returns(f, args, tr, w, v, after) {
      var fuel: nat :| EvalCall(f, args, tr, w, fuel) == Returned(v, after);
      var k := CallMeans(sigs, f, args, tr, w, fuel);
    }
    if Halts(p, args, tr, w, v, after) {
      var j: nat :| Steps(p, Entry(args, tr), w, j) == Halt(v, after);
      var k := CallMeans(sigs, f, args, tr, w, j);
      CallIsFinal(f, args, tr, w, j);
      HaltsOnce(p, Entry(args, tr), w, j, k);
    }
  }

  /** Whatever finishes has one result, and is not running later. */
  lemma HaltsOnce(p: seq<Block>, c: Config, w: World, j: nat, k: nat)
    requires !Steps(p, c, w, j).Run?
    ensures k >= j ==> Steps(p, c, w, k) == Steps(p, c, w, j)
    ensures !Steps(p, c, w, k).Run? ==> Steps(p, c, w, k) == Steps(p, c, w, j)
  {
    if k >= j {
      StepsCompose(p, c, w, j, k - j);
      StepsDone(p, Steps(p, c, w, j), w, k - j);
    } else if !Steps(p, c, w, k).Run? {
      StepsCompose(p, c, w, k, j - k);
      StepsDone(p, Steps(p, c, w, k), w, j - k);
    }
  }
}
