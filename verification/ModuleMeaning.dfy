/** What the converter's result means for a caller of the compiled module. */
module ModuleMeaning {
  import opened Wrappers
  import opened CSource
  import opened LlvmIr
  import opened Emission
  import opened ExprMeaning
  import opened StmtMeaning
  import opened FunctionMeaning
  import opened Converter
  import opened Programs

  lemma {:induction false} DeclaredSigsOk(decls: seq<Function>)
    ensures SigsOk(SigsAfter(decls))
  {
    if decls != [] { DeclaredSigsOk(decls[..|decls| - 1]); }
  }

  /** Every definition is in the documented fragment; read off the text of the unit. */
  ghost predicate UnitInFragment(decls: seq<Function>) {
    forall k :: 0 <= k < |decls| && decls[k].body.Some? ==>
      && FaithfulStmt(decls[k].body.value, SigsAfter(decls[..k + 1]))
      && Unshadowed(decls[k].body.value, set x | x in decls[k].params)
  }

  /** What `Convert` hands out for a unit of the fragment. */
  ghost predicate Compiled(ir: map<string, IrFunction>, decls: seq<Function>) {
    DefinedOnce(decls) && ModuleOf(ir, decls) && UnitInFragment(decls)
  }

  lemma CompiledDefinition(ir: map<string, IrFunction>, decls: seq<Function>, k: nat)
    requires Compiled(ir, decls) && k < |decls| && decls[k].body.Some?
    ensures var sigs := SigsAfter(decls[..k + 1]);
            && InFragment(decls[k], sigs) && EmitDefinition(sigs, decls[k]).Ok? && decls[k].name in ir
            && ir[decls[k].name].blocks == EmitDefinition(sigs, decls[k]).b.blocks
            && FunctionOk(ir[decls[k].name].blocks, RetTy(decls[k].ret))
    ensures DefinitionOf(decls, decls[k].name) == Some(k)
  {
    hide EmitDefinition, FunctionOk, FaithfulStmt, Unshadowed;
    DeclaredSigsOk(decls[..k + 1]);
  }

  lemma InModule(ir: map<string, IrFunction>, decls: seq<Function>, f: string)
    requires Compiled(ir, decls)
    ensures f in ir <==> DefinitionOf(decls, f).Some?
  {
    hide EmitDefinition, FunctionOk, FaithfulStmt, Unshadowed;
    if DefinitionOf(decls, f).Some? { assert Has(ir, decls, DefinitionOf(decls, f).value); }
  }

  /** The call the machine stands at, if it stands at one into the module. */
  predicate Enters(blocks: seq<Block>, c: Config, ir: map<string, IrFunction>) {
    && c.Run? && c.block < |blocks| && c.pc < |blocks[c.block]|
    && blocks[c.block][c.pc].CallF? && blocks[c.block][c.pc].f in ir
  }

  /** Anything but a call into the module is the same step for one call and for the process. */
  lemma OtherStep(ir: map<string, IrFunction>, decls: seq<Function>, ext: Outside, blocks: seq<Block>, c: Config,
                  depth: nat, fuel: nat)
    requires Compiled(ir, decls) && c.Run? && !Enters(blocks, c, ir)
    ensures Step(blocks, c, Unlinked(ext)) == Step(blocks, c, Replies(decls, ext, depth, fuel))
    ensures c.block < |blocks| && c.pc < |blocks[c.block]| ==>
              !Waits(blocks[c.block][c.pc], c.m, Replies(decls, ext, depth, fuel))
  {
    hide Compiled;
    if c.block < |blocks| && c.pc < |blocks[c.block]| && blocks[c.block][c.pc].CallF? {
      InModule(ir, decls, blocks[c.block][c.pc].f);
    }
  }

  ghost predicate WaitsAt(blocks: seq<Block>, c: Config, w: World) {
    c.Run? && c.block < |blocks| && c.pc < |blocks[c.block]| && Waits(blocks[c.block][c.pc], c.m, w)
  }

  /** One step of a call, calls into the module included, is some steps of the process; a call
      that is not answered keeps the process running. */
  lemma {:induction false} StepAdvances(ir: map<string, IrFunction>, decls: seq<Function>, ext: Outside, f: string,
                                        below: seq<Frame>, dst: nat, c: Config, depth: nat, fuel: nat)
    returns (k: nat)
    requires Compiled(ir, decls) && f in ir && c.Run?
    ensures var w, blocks := Replies(decls, ext, depth, fuel), ir[f].blocks;
            var after := Advances(ir, ext, OnTop(below, f, dst, c), k);
            if WaitsAt(blocks, c, w) then after.Running? && (k >= depth || k >= fuel)
            else Step(blocks, c, w).Broken? || (k >= 1 && after == OnTop(below, f, dst, Step(blocks, c, w)))
    decreases depth, 0, 0
  {
    hide Compiled;
    var w, blocks := Replies(decls, ext, depth, fuel), ir[f].blocks;
    var p := OnTop(below, f, dst, c);
    k := 1;
    if Enters(blocks, c, ir) {
      var i := blocks[c.block][c.pc];
      InModule(ir, decls, i.f);
      var j := DefinitionOf(decls, i.f).value;
      var args := ArgValues(i.args, c.m.regs);
      k := 0;
      if args.Some? && |args.value| == |decls[j].params| && depth > 0 {
        k := EnterAdvances(ir, decls, ext, f, below, dst, c, j, args.value, depth, fuel);
      }
    } else {
      OtherStep(ir, decls, ext, blocks, c, depth, fuel);
      assert Advances(ir, ext, p, 1) == Advances(ir, ext, Advance(ir, ext, p), 0);
    }
  }

  /** A call into the module. */
  lemma {:induction false} EnterAdvances(ir: map<string, IrFunction>, decls: seq<Function>, ext: Outside, f: string,
                                         below: seq<Frame>, dst: nat, c: Config, j: nat, args: seq<int>,
                                         depth: nat, fuel: nat)
    returns (k: nat)
    requires Compiled(ir, decls) && f in ir && Enters(ir[f].blocks, c, ir) && depth > 0
    requires var i := ir[f].blocks[c.block][c.pc];
             DefinitionOf(decls, i.f) == Some(j) && ArgValues(i.args, c.m.regs) == Some(args)
    requires |args| == |decls[j].params|
    ensures var w, blocks := Replies(decls, ext, depth, fuel), ir[f].blocks;
            var after := Advances(ir, ext, OnTop(below, f, dst, c), k);
            if WaitsAt(blocks, c, w) then after.Running? && (k >= depth || k >= fuel)
            else Step(blocks, c, w).Broken? || (k >= 1 && after == OnTop(below, f, dst, Step(blocks, c, w)))
    decreases depth - 1, 3, 0
  {
    hide Compiled;
    var i := ir[f].blocks[c.block][c.pc];
    var p := OnTop(below, f, dst, c);
    var caller := Frame(f, dst, c.block, c.pc + 1, c.m.regs, c.m.mem);
    var entered := Running(below + [caller] + [Entered(i.f, i.dst, Converted(args))], c.m.trace);
    assert Advance(ir, ext, p) == entered;
    var k1 := CallAdvances(ir, decls, ext, j, Converted(args), c.m.trace, below + [caller], i.dst, depth - 1, fuel);
    AdvancesCompose(ir, ext, p, 1, k1);
    assert Advances(ir, ext, p, 1) == Advances(ir, ext, entered, 0);
    k := 1 + k1;
  }

  /** Any number of steps of a call. */
  lemma {:induction false} StepsAdvance(ir: map<string, IrFunction>, decls: seq<Function>, ext: Outside, f: string,
                                        below: seq<Frame>, dst: nat, c: Config, n: nat, depth: nat, fuel: nat)
    returns (k: nat)
    requires Compiled(ir, decls) && f in ir && c.Run?
    ensures var c1 := Steps(ir[f].blocks, c, Replies(decls, ext, depth, fuel), n);
            var after := Advances(ir, ext, OnTop(below, f, dst, c), k);
            && (c1.Halt? ==> after == OnTop(below, f, dst, c1))
            && (c1.Run? ==> after.Running? && (k >= n || k >= depth || k >= fuel))
    decreases depth, 1, n
  {
    hide Compiled, Step, Advance, Waits;
    var w, blocks := Replies(decls, ext, depth, fuel), ir[f].blocks;
    k := 0;
    if n > 0 {
      var c2 := Step(blocks, c, w);
      var k1 := StepAdvances(ir, decls, ext, f, below, dst, c, depth, fuel);
      if WaitsAt(blocks, c, w) {
        Stuck(blocks, c, w);
        StepsStay(blocks, c, w, n);
        k := k1;
      } else if c2.Run? {
        var k2 := StepsAdvance(ir, decls, ext, f, below, dst, c2, n - 1, depth, fuel);
        AdvancesCompose(ir, ext, OnTop(below, f, dst, c), k1, k2);
        k := k1 + k2;
      } else {
        StepsDone(blocks, c2, w, n - 1);
        k := k1;
      }
    }
  }

  /** A whole call: if it returns in C, the process comes back to the frames below it with the
      same value after the same outside calls; if it is not over within the bounds, the process
      runs on for at least as many steps. */
  lemma {:induction false} CallAdvances(ir: map<string, IrFunction>, decls: seq<Function>, ext: Outside, j: nat,
                                        args: seq<int>, tr: seq<Event>, below: seq<Frame>, dst: nat,
                                        depth: nat, fuel: nat)
    returns (k: nat)
    requires Compiled(ir, decls) && j < |decls| && decls[j].body.Some? && ArgumentsOk(decls[j], args)
    ensures var after := Advances(ir, ext, Running(below + [Entered(decls[j].name, dst, args)], tr), k);
            match EvalProgram(decls, ext, j, args, tr, depth, fuel)
            case Returned(v, tr1) => after == Resume(below, dst, v, tr1)
            case OutOfFuel => after.Running? && (k >= depth || k >= fuel)
            case _ => true
    decreases depth, 2, 0
  {
    CompiledDefinition(ir, decls, j);
    hide Compiled, EmitDefinition, FunctionOk, EvalCall, Advances, Steps, InFragment;
    var w := Replies(decls, ext, depth, fuel);
    var n := FunctionMeaning.CallMeans(SigsAfter(decls[..j + 1]), decls[j], args, tr, w, fuel);
    k := StepsAdvance(ir, decls, ext, decls[j].name, below, dst, Entry(args, tr), n, depth, fuel);
  }

  // ----- from the outside -----

  ghost predicate Returns(decls: seq<Function>, ext: Outside, k: nat, args: seq<int>, v: Option<int>, tr: seq<Event>)
    requires k < |decls| && decls[k].body.Some?
  {
    exists depth: nat, fuel: nat :: EvalProgram(decls, ext, k, args, [], depth, fuel) == Returned(v, tr)
  }

  ghost predicate Exits(ir: map<string, IrFunction>, ext: Outside, f: string, args: seq<int>, v: Option<int>,
                        tr: seq<Event>)
  {
    exists n: nat :: Advances(ir, ext, Running([Entered(f, 0, args)], []), n) == Exited(v, tr)
  }

  /** C leaves the behaviour of the call, and of every call it makes, defined. */
  ghost predicate DefinedProgram(decls: seq<Function>, ext: Outside, k: nat, args: seq<int>)
    requires k < |decls| && decls[k].body.Some?
  {
    forall depth: nat, fuel: nat :: !EvalProgram(decls, ext, k, args, [], depth, fuel).Wrong?
  }

  /** Meaning preservation for modules: whatever functions outside answer, a call of any
      definition ends in the compiled module exactly when it ends in C, with the same value and
      after the same sequence of outside calls, made by whichever function of the module. */
  lemma ProgramMeans(ir: map<string, IrFunction>, decls: seq<Function>, ext: Outside, k: nat, args: seq<int>,
                     v: Option<int>, tr: seq<Event>)
    requires Compiled(ir, decls) && k < |decls| && decls[k].body.Some? && ArgumentsOk(decls[k], args)
    requires DefinedProgram(decls, ext, k, args)
    ensures Exits(ir, ext, decls[k].name, args, v, tr) <==> Returns(decls, ext, k, args, v, tr)
  {
    hide Compiled, Advances;
    var top := Entered(decls[k].name, 0, args);
    var start := Running([top], []);
    assert [] + [top] == [top];
    if Returns(decls, ext, k, args, v, tr) {
      var depth: nat, fuel: nat :| EvalProgram(decls, ext, k, args, [], depth, fuel) == Returned(v, tr);
      var n := CallAdvances(ir, decls, ext, k, args, [], [], 0, depth, fuel);
    }
    if Exits(ir, ext, decls[k].name, args, v, tr) {
      var n: nat :| Advances(ir, ext, start, n) == Exited(v, tr);
      var j := CallAdvances(ir, decls, ext, k, args, [], [], 0, n, n);
      CallIsFinal(decls[k], args, [], Replies(decls, ext, n, n), n);
      ExitsOnce(ir, ext, start, n, j);
    }
  }

  /** Whatever finishes has one result, and is not running later. */
  lemma ExitsOnce(ir: map<string, IrFunction>, ext: Outside, p: Process, j: nat, k: nat)
    requires !Advances(ir, ext, p, j).Running?
    ensures k >= j ==> Advances(ir, ext, p, k) == Advances(ir, ext, p, j)
    ensures !Advances(ir, ext, p, k).Running? ==> Advances(ir, ext, p, k) == Advances(ir, ext, p, j)
  {
    if k >= j {
      AdvancesCompose(ir, ext, p, j, k - j);
      AdvancesDone(ir, ext, Advances(ir, ext, p, j), k - j);
    } else if !Advances(ir, ext, p, k).Running? {
      AdvancesCompose(ir, ext, p, k, j - k);
      AdvancesDone(ir, ext, Advances(ir, ext, p, k), j - k);
    }
  }
}
