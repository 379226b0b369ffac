/** Whole programs: definitions that call each other, and functions outside. */
module Programs {
  import opened Wrappers
  import opened CSource
  import opened LlvmIr
  import opened Converter
  import opened FunctionMeaning

  /** What a function outside the module answers, given everything called there before. */
  type Outside = (seq<Event>, string, seq<int>) -> int

  /** Arguments are converted to the parameters' type, `int` (section 6.5.2.2 of C11). */
  function Converted(ns: seq<int>): (r: seq<int>)
    ensures |r| == |ns| && forall i :: 0 <= i < |r| ==> r[i] == Wrap32(ns[i])
  {
    seq(|ns|, i requires 0 <= i < |ns| => Wrap32(ns[i]))
  }

  // ----- C -----

  /** Which declaration defines a name. */
  function DefinitionOf(decls: seq<Function>, name: string): (r: Option<nat>)
    ensures r.Some? ==> r.value < |decls| && decls[r.value].name == name && decls[r.value].body.Some?
    ensures r.None? ==> forall k :: 0 <= k < |decls| && decls[k].body.Some? ==> decls[k].name != name
  {
    if decls == [] then None
    else
      var k := |decls| - 1;
      if decls[k].name == name && decls[k].body.Some? then Some(k) else DefinitionOf(decls[..k], name)
  }

  /** A call in a program: a defined function is entered, with `depth` bounding how deep calls
      nest and `fuel` the loop iterations of each; any other is a call to the outside. */
  function Reply(decls: seq<Function>, ext: Outside, depth: nat, fuel: nat, tr: seq<Event>, f: string, ns: seq<int>)
    : Answer
    decreases depth
  {
    match DefinitionOf(decls, f)
    case None => Answered(ext(tr, f, ns), tr + [Event(f, ns)])
    case Some(k) =>
      if |ns| != |decls[k].params| then Invalid
      else if depth == 0 then Unanswered
      else
        var inner := (t, g, xs) => Reply(decls, ext, depth - 1, fuel, t, g, xs);
        match EvalCall(decls[k], Converted(ns), tr, inner, fuel)
        case Returned(v, after) => Answered(ResultOf(v), after)
        case OutOfFuel => Unanswered
        case _ => Invalid
  }

  /** A call without a value leaves one that no program looks at. */
  function ResultOf(v: Option<int>): int { if v.Some? then v.value else 0 }

  function Replies(decls: seq<Function>, ext: Outside, depth: nat, fuel: nat): World {
    (t, g, xs) => Reply(decls, ext, depth, fuel, t, g, xs)
  }

  function EvalProgram(decls: seq<Function>, ext: Outside, k: nat, args: seq<int>, tr: seq<Event>, depth: nat,
                       fuel: nat)
    : Outcome
    requires k < |decls| && decls[k].body.Some?
  {
    EvalCall(decls[k], args, tr, Replies(decls, ext, depth, fuel), fuel)
  }

  // ----- the compiled module -----

  /** A call under way: its function, the caller's register for the result, and its own state. */
  datatype Frame = Frame(f: string, dst: nat, block: nat, pc: nat, regs: Regs, mem: Memory)

  /** The calls under way, outermost first, and the outside calls made so far. */
  datatype Process = Running(stack: seq<Frame>, trace: seq<Event>)
                   | Exited(value: Option<int>, trace: seq<Event>)
                   | Crashed

  function Entered(f: string, dst: nat, args: seq<int>): Frame { Frame(f, dst, 0, 0, ArgRegs(args), map[]) }

  /** A call has returned to the innermost of the frames below it. */
  function Resume(below: seq<Frame>, dst: nat, v: Option<int>, tr: seq<Event>): Process {
    if below == [] then Exited(v, tr)
    else
      var caller := below[|below| - 1];
      Running(below[..|below| - 1] + [caller.(regs := caller.regs[dst := Wrap32(ResultOf(v))])], tr)
  }

  /** A point of execution of one call, on top of the frames below it. */
  function OnTop(below: seq<Frame>, f: string, dst: nat, c: Config): Process {
    match c
    case Run(block, pc, m) => Running(below + [Frame(f, dst, block, pc, m.regs, m.mem)], m.trace)
    case Halt(v, tr) => Resume(below, dst, v, tr)
    case Broken => Crashed
  }

  /** Every call goes to the outside. */
  function Unlinked(ext: Outside): World { (t, g, xs) => Answered(ext(t, g, xs), t + [Event(g, xs)]) }

  /** One step of the innermost call. A call to a function of the module enters it with a
      fresh frame; everything else is as in one function. */
  function Advance(ir: map<string, IrFunction>, ext: Outside, p: Process): Process {
    if !p.Running? || p.stack == [] then p
    else
      var below, top := p.stack[..|p.stack| - 1], p.stack[|p.stack| - 1];
      if top.f !in ir then Crashed
      else
        var blocks := ir[top.f].blocks;
        if top.block < |blocks| && top.pc < |blocks[top.block]| && blocks[top.block][top.pc].CallF?
           && blocks[top.block][top.pc].f in ir then
          var i := blocks[top.block][top.pc];
          match ArgValues(i.args, top.regs)
          case None => Crashed
          case Some(ns) => Running(below + [top.(pc := top.pc + 1)] + [Entered(i.f, i.dst, Converted(ns))], p.trace)
        else
          OnTop(below, top.f, top.dst,
                Step(blocks, Run(top.block, top.pc, Machine(top.regs, top.mem, p.trace)), Unlinked(ext)))
  }

  function Advances(ir: map<string, IrFunction>, ext: Outside, p: Process, k: nat): Process
    decreases k
  {
    if k == 0 then p else Advances(ir, ext, Advance(ir, ext, p), k - 1)
  }

  lemma {:induction false} AdvancesCompose(ir: map<string, IrFunction>, ext: Outside, p: Process, j: nat, k: nat)
    ensures Advances(ir, ext, p, j + k) == Advances(ir, ext, Advances(ir, ext, p, j), k)
    decreases j
  {
    if j > 0 { AdvancesCompose(ir, ext, Advance(ir, ext, p), j - 1, k); }
  }

  lemma {:induction false} AdvancesDone(ir: map<string, IrFunction>, ext: Outside, p: Process, k: nat)
    requires !p.Running?
    ensures Advances(ir, ext, p, k) == p
    decreases k
  {
    if k > 0 { AdvancesDone(ir, ext, p, k - 1); }
  }
}
