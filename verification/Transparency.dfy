/** A target run under breakpoints that the callback steps over behaves as it does alone. */
module Transparency {
  import opened Wrappers
  import opened Breakpoints
  import opened BreakpointSafety

  /** One instruction: new memory and context, or the end of the process. */
  datatype Effect = Next(mem: Memory, ctx: Context) | Exit(code: int)

  /** The processor: what the instruction at hand does, trap flag included. */
  type Processor = (Memory, Context) -> Effect

  /** Memory and registers at the moment an instruction executes. */
  datatype Moment = Moment(mem: Memory, ctx: Context)

  // ----- the target alone -----

  datatype Native = Native(mem: Memory, ctx: Context, exited: Option<int>, executed: seq<Moment>)

  function NativeCycle(cpu: Processor, n: Native): Native {
    if n.exited.Some? then n
    else
      var executed := n.executed + [Moment(n.mem, n.ctx)];
      match cpu(n.mem, n.ctx)
      case Exit(code) => n.(exited := Some(code), executed := executed)
      case Next(m, c) => Native(m, c, None, executed)
  }

  function NativeRun(cpu: Processor, n: Native, k: nat): Native
    decreases k
  {
    if k == 0 then n else NativeCycle(cpu, NativeRun(cpu, n, k - 1))
  }

  // ----- the target under the debugger -----

  /** Running; stopped at a trap or a single step, with the event waiting; or finished. */
  datatype Phase = Running | Trapped(addr: int) | Stepped | Exited(code: int) | Failed

  datatype Debuggee = Debuggee(s: State, phase: Phase, executed: seq<Moment>)

  /** The memory the target would see without 0xCC bytes in it. */
  function Unpatched(s: State): Memory {
    map a | a in s.mem :: match Find(s, a) case None => s.mem[a] case Some(id) => s.table[id].original
  }

  /** One transition of thread `tid`. The processor executes 0xCC by trapping with the
      instruction pointer behind it; with the trap flag set it runs the instruction with that
      flag set, then traps, and the context that is reported has it cleared. The event loop
      passes traps and steps to the manager, and continues. */
  function Cycle(cpu: Processor, d: Debuggee, tid: int): Debuggee {
    match d.phase
    case Running =>
      if tid !in d.s.threads then d.(phase := Failed)
      else
        var c := d.s.threads[tid];
        if c.ip in d.s.mem && d.s.mem[c.ip] == INT3 then
          d.(s := d.s.(threads := d.s.threads[tid := c.(ip := c.ip + 1)]), phase := Trapped(c.ip))
        else
          var executed := d.executed + [Moment(Unpatched(d.s), ClearTrapFlag(c))];
          (match cpu(d.s.mem, c)
           case Exit(code) => d.(phase := Exited(code), executed := executed)
           case Next(m, c1) =>
             Debuggee(d.s.(mem := m, threads := d.s.threads[tid := if TrapFlag(c) then ClearTrapFlag(c1) else c1]),
                      if TrapFlag(c) then Stepped else Running, executed))
    case Trapped(addr) =>
      var (s1, r) := AfterHit(d.s, tid, addr, AllOk, true, AllOk);
      Debuggee(s1, if r.Raised? then Failed else Running, d.executed)
    case Stepped =>
      var (s1, r) := AfterStep(d.s, tid, AllOk);
      Debuggee(s1, if r.Raised? then Failed else Running, d.executed)
    case Exited(_) => d
    case Failed => d
  }

  function Cycles(cpu: Processor, d: Debuggee, tid: int, k: nat): Debuggee
    decreases k
  {
    if k == 0 then d else Cycle(cpu, Cycles(cpu, d, tid, k - 1), tid)
  }

  /** The event loop with a callback that always asks to go on, for a number of transitions. */
  class Debugger {
    const brk: SoftwareBreakpointManager
    var phase: Phase
    ghost var executed: seq<Moment>

    ghost function Now(): Debuggee
      reads this, brk
    {
      Debuggee(brk.Now(), phase, executed)
    }

    constructor (brk: SoftwareBreakpointManager)
      ensures this.brk == brk && Now() == Debuggee(brk.Now(), Running, [])
    {
      this.brk := brk;
      phase, executed := Running, [];
    }

    method RunFor(cpu: Processor, tid: int, cycles: nat) returns (exitCode: Option<int>)
      modifies this, brk
      ensures Now() == Cycles(cpu, old(Now()), tid, cycles)
      ensures exitCode == if phase.Exited? then Some(phase.code) else None
    {
      hide Cycle;
      var k := 0;
      while k < cycles
        invariant 0 <= k <= cycles && Now() == Cycles(cpu, old(Now()), tid, k)
      {
        Proceed(cpu, tid);
        k := k + 1;
      }
      exitCode := if phase.Exited? then Some(phase.code) else None;
    }

    /** One transition: the target goes on, or an event of it is handled. */
    method Proceed(cpu: Processor, tid: int)
      modifies this, brk
      ensures Now() == Cycle(cpu, old(Now()), tid)
    {
      match phase {
        case Running => Execute(cpu, tid);
        case Trapped(addr) =>
          var r := brk.HandleBreakpointHit(tid, addr, AllOk, true, AllOk);
          phase := if r.Raised? then Failed else Running;
        case Stepped =>
          var r := brk.HandleSingleStep(tid, AllOk);
          phase := if r.Raised? then Failed else Running;
        case Exited(_) =>
        case Failed =>
      }
    }

    /** The target runs until its next instruction is done or traps. */
    method Execute(cpu: Processor, tid: int)
      requires phase == Running
      modifies this, brk
      ensures Now() == Cycle(cpu, old(Now()), tid)
    {
      if tid !in brk.threads {
        phase := Failed;
        return;
      }
      var c := brk.threads[tid];
      if c.ip in brk.mem && brk.mem[c.ip] == INT3 {
        brk.threads := brk.threads[tid := c.(ip := c.ip + 1)];
        phase := Trapped(c.ip);
        return;
      }
      executed := executed + [Moment(Unpatched(brk.Now()), ClearTrapFlag(c))];
      match cpu(brk.mem, c)
      case Exit(code) => phase := Exited(code);
      case Next(m, c1) =>
        brk.mem, brk.threads := m, brk.threads[tid := if TrapFlag(c) then ClearTrapFlag(c1) else c1];
        phase := if TrapFlag(c) then Stepped else Running;
    }
  }

  // ----- what is asked of the target -----

  /** Memory with 0xCC at the addresses `b`, except at `off`. */
  function Patched(m: Memory, b: set<int>, off: Option<int>): Memory {
    map a | a in m :: if a in b && off != Some(a) then INT3 else m[a]
  }

  /** The target is not aware of the bytes `b`: the instruction at hand neither reads nor
      writes them, except for fetching its own first byte, it is not itself an INT3, and it
      does not single-step. (Only first bytes of instructions carry breakpoints, so
      fetching the rest of an instruction reads none of them.) */
  ghost predicate UnawareOfBytes(cpu: Processor, b: set<int>, m: Memory, c: Context) {
    && !TrapFlag(c) && c.ip in m && m[c.ip] != INT3
    && forall m': Memory {:trigger cpu(m', c)} :: Agrees(m, m', b, c.ip) ==>
         match cpu(m, c)
         case Exit(code) => cpu(m', c) == Exit(code)
         case Next(m1, c1) =>
           && m1.Keys == m.Keys && (forall a :: a in b && a in m ==> m1[a] == m[a])
           && cpu(m', c) == Next(map a | a in m1 :: if a in b then m'[a] else m1[a], c1)
  }

  /** The same memory but for the bytes `b`, and there too at the instruction itself. */
  ghost predicate Agrees(m: Memory, m': Memory, b: set<int>, ip: int) {
    m'.Keys == m.Keys && forall a :: a in m && (a !in b || a == ip) ==> m'[a] == m[a]
  }

  /** The instruction does not look at the trap flag it runs under. */
  predicate BlindToTrapFlag(cpu: Processor, m: Memory, c: Context) {
    match cpu(m, c)
    case Exit(code) => cpu(m, SetTrapFlag(c)) == Exit(code)
    case Next(m1, c1) =>
      && cpu(m, SetTrapFlag(c)).Next? && cpu(m, SetTrapFlag(c)).mem == m1
      && ClearTrapFlag(cpu(m, SetTrapFlag(c)).ctx) == c1
  }

  /** Unaware of the bytes, and, at a breakpoint, of the trap flag it is stepped over with. */
  ghost predicate Unaware(cpu: Processor, b: set<int>, m: Memory, c: Context) {
    && UnawareOfBytes(cpu, b, m, c)
    && (c.ip in b ==> forall m': Memory {:trigger cpu(m', c)} :: Agrees(m, m', b, c.ip) ==> BlindToTrapFlag(cpu, m', c))
  }

  ghost predicate AlwaysUnaware(cpu: Processor, b: set<int>, n: Native) {
    forall k: nat :: NativeRun(cpu, n, k).exited.None? ==>
      Unaware(cpu, b, NativeRun(cpu, n, k).mem, NativeRun(cpu, n, k).ctx)
  }

  // ----- the simulation -----

  /** The table holds exactly the breakpoints at `b`. */
  ghost predicate TableIs(s: State, m: Memory, b: set<int>) {
    && TableOk(s, m)
    && (forall id: nat :: Live(s, id) ==> s.table[id].addr in b)
    && (forall a :: a in b ==> Find(s, a).Some?)
  }

  /** Between instructions, all breakpoints armed. */
  ghost predicate Armed(d: Debuggee, tid: int, b: set<int>, n: Native) {
    && d.phase == Running && d.s.pending == map[]
    && tid in d.s.threads && d.s.threads[tid] == n.ctx
    && d.s.mem == Patched(n.mem, b, None)
  }

  /** The trap at the current instruction has been taken. */
  ghost predicate AtTrap(d: Debuggee, tid: int, b: set<int>, n: Native) {
    && d.phase == Trapped(n.ctx.ip) && d.s.pending == map[] && n.ctx.ip in b
    && tid in d.s.threads && d.s.threads[tid] == n.ctx.(ip := n.ctx.ip + 1)
    && d.s.mem == Patched(n.mem, b, None)
  }

  /** Rewound onto the instruction, which is back in place, with the trap flag set. */
  ghost predicate SteppingOver(d: Debuggee, tid: int, b: set<int>, n: Native) {
    && d.phase == Running && n.ctx.ip in b
    && tid in d.s.threads && d.s.threads[tid] == SetTrapFlag(n.ctx)
    && d.s.mem == Patched(n.mem, b, Some(n.ctx.ip))
    && Find(d.s, n.ctx.ip).Some? && n.ctx.ip in n.mem
    && d.s.pending == map[tid := Pending(Find(d.s, n.ctx.ip).value, n.ctx.ip, n.mem[n.ctx.ip])]
  }

  /** The instruction at `at` is done, its breakpoint still to be re-armed. */
  ghost predicate AfterStepping(d: Debuggee, tid: int, b: set<int>, n: Native, at: int) {
    && d.phase == Stepped && at in b && at in n.mem
    && tid in d.s.threads && d.s.threads[tid] == n.ctx
    && d.s.mem == Patched(n.mem, b, Some(at))
    && Find(d.s, at).Some?
    && d.s.pending == map[tid := Pending(Find(d.s, at).value, at, n.mem[at])]
  }

  ghost predicate Simulates(d: Debuggee, tid: int, b: set<int>, n: Native) {
    && d.executed == n.executed
    && match n.exited
       case Some(code) => d.phase == Exited(code)
       case None =>
         && TableIs(d.s, n.mem, b)
         && (Armed(d, tid, b, n) || AtTrap(d, tid, b, n) || SteppingOver(d, tid, b, n)
             || exists at :: AfterStepping(d, tid, b, n, at))
  }

  lemma UnpatchedIs(s: State, m: Memory, b: set<int>, off: Option<int>)
    requires TableIs(s, m, b) && s.mem == Patched(m, b, off)
    ensures Unpatched(s) == m
  {
  }

  /** Executing the instruction under the debugger and alone has the same effect. */
  lemma SameEffect(cpu: Processor, s: State, b: set<int>, n: Native, off: Option<int>)
    requires n.exited.None? && UnawareOfBytes(cpu, b, n.mem, n.ctx)
    requires TableIs(s, n.mem, b) && s.mem == Patched(n.mem, b, off)
    requires off == (if n.ctx.ip in b then Some(n.ctx.ip) else None)
    ensures s.mem[n.ctx.ip] != INT3 && Agrees(n.mem, s.mem, b, n.ctx.ip)
    ensures match cpu(n.mem, n.ctx)
            case Exit(code) => cpu(s.mem, n.ctx) == Exit(code)
            case Next(m1, c1) =>
              && cpu(s.mem, n.ctx) == Next(Patched(m1, b, off), c1)
              && (forall a :: a in b && a in n.mem ==> a in m1 && m1[a] == n.mem[a])
              && m1.Keys == n.mem.Keys
  {
  }

  /** The breakpoint table fits the next native memory as well. */
  lemma TableStays(s: State, s1: State, m: Memory, m1: Memory, b: set<int>)
    requires TableIs(s, m, b) && s1.table == s.table && s1.counter == s.counter
    requires m1.Keys == m.Keys && forall a :: a in b && a in m ==> a in m1 && m1[a] == m[a]
    ensures TableIs(s1, m1, b) && forall a :: Find(s1, a) == Find(s, a)
  {
    forall a ensures Find(s1, a) == Find(s, a) { FindStays(s, s1, a, 0); }
    forall id: nat | Live(s1, id) ensures s1.table[id].addr in b && s1.table[id].original == m1[s1.table[id].addr] {
      assert Live(s, id);
    }
    forall i: nat, j: nat | Live(s1, i) && Live(s1, j) && i != j ensures s1.table[i].addr != s1.table[j].addr {
      assert Live(s, i) && Live(s, j);
    }
  }

  lemma {:induction false} FindStays(s: State, s1: State, a: int, from: nat)
    requires s1.table == s.table && s1.counter == s.counter
    ensures FindFrom(s1, a, from) == FindFrom(s, a, from)
    decreases s.counter + 1 - from
  {
    if from <= s.counter { FindStays(s, s1, a, from + 1); }
  }

  // One lemma per phase.

  lemma ArmedCycle(cpu: Processor, d: Debuggee, tid: int, b: set<int>, n: Native)
    requires n.exited.None? && UnawareOfBytes(cpu, b, n.mem, n.ctx) && d.executed == n.executed
    requires TableIs(d.s, n.mem, b) && Armed(d, tid, b, n)
    ensures Simulates(Cycle(cpu, d, tid), tid, b, if n.ctx.ip in b then n else NativeCycle(cpu, n))
    ensures n.ctx.ip in b ==> AtTrap(Cycle(cpu, d, tid), tid, b, n)
    ensures n.ctx.ip !in b && cpu(n.mem, n.ctx).Next? ==> Armed(Cycle(cpu, d, tid), tid, b, NativeCycle(cpu, n))
  {
    if n.ctx.ip in b { ArmedTraps(cpu, d, tid, b, n); }
    else { ArmedExecutes(cpu, d, tid, b, n); }
  }

  lemma ArmedTraps(cpu: Processor, d: Debuggee, tid: int, b: set<int>, n: Native)
    requires n.exited.None? && n.ctx.ip in n.mem && d.executed == n.executed
    requires TableIs(d.s, n.mem, b) && Armed(d, tid, b, n) && n.ctx.ip in b
    ensures Simulates(Cycle(cpu, d, tid), tid, b, n) && AtTrap(Cycle(cpu, d, tid), tid, b, n)
  {
    TableStays(d.s, Cycle(cpu, d, tid).s, n.mem, n.mem, b);
    hide TableIs;
  }

  lemma ArmedExecutes(cpu: Processor, d: Debuggee, tid: int, b: set<int>, n: Native)
    requires n.exited.None? && UnawareOfBytes(cpu, b, n.mem, n.ctx) && d.executed == n.executed
    requires TableIs(d.s, n.mem, b) && Armed(d, tid, b, n) && n.ctx.ip !in b
    ensures Simulates(Cycle(cpu, d, tid), tid, b, NativeCycle(cpu, n))
    ensures cpu(n.mem, n.ctx).Next? ==> Armed(Cycle(cpu, d, tid), tid, b, NativeCycle(cpu, n))
  {
    SameEffect(cpu, d.s, b, n, None);
    UnpatchedIs(d.s, n.mem, b, None);
    hide UnawareOfBytes, TableIs;
    if cpu(n.mem, n.ctx).Next? {
      TableStays(d.s, Cycle(cpu, d, tid).s, n.mem, cpu(n.mem, n.ctx).mem, b);
    }
  }

  lemma TrapCycle(cpu: Processor, d: Debuggee, tid: int, b: set<int>, n: Native)
    requires n.exited.None? && UnawareOfBytes(cpu, b, n.mem, n.ctx) && d.executed == n.executed
    requires TableIs(d.s, n.mem, b) && AtTrap(d, tid, b, n)
    ensures Simulates(Cycle(cpu, d, tid), tid, b, n) && SteppingOver(Cycle(cpu, d, tid), tid, b, n)
  {
    var d1 := Cycle(cpu, d, tid);
    var ip := n.ctx.ip;
    var id := Find(d.s, ip).value;
    assert Live(d.s, id) && d.s.table[id] == Int3(ip, n.mem[ip]);
    TableStays(d.s, d1.s, n.mem, n.mem, b);
    assert d1.s.mem == Patched(n.mem, b, Some(ip));
    assert SetTrapFlag(n.ctx.(ip := ip + 1)).(ip := ip) == SetTrapFlag(n.ctx);
  }

  lemma StepOverCycle(cpu: Processor, d: Debuggee, tid: int, b: set<int>, n: Native)
    requires n.exited.None? && Unaware(cpu, b, n.mem, n.ctx) && d.executed == n.executed
    requires TableIs(d.s, n.mem, b) && SteppingOver(d, tid, b, n)
    ensures Simulates(Cycle(cpu, d, tid), tid, b, NativeCycle(cpu, n))
    ensures cpu(n.mem, n.ctx).Next? ==> AfterStepping(Cycle(cpu, d, tid), tid, b, NativeCycle(cpu, n), n.ctx.ip)
  {
    SameEffect(cpu, d.s, b, n, Some(n.ctx.ip));
    SteppedOverExactly(cpu, d, tid, b, n);
  }

  /** What stepping over an instruction leaves. */
  lemma StepOverLeaves(cpu: Processor, d: Debuggee, tid: int, b: set<int>, n: Native)
    requires n.exited.None? && UnawareOfBytes(cpu, b, n.mem, n.ctx) && d.executed == n.executed
    requires TableIs(d.s, n.mem, b) && SteppingOver(d, tid, b, n)
    ensures var d1, e := Cycle(cpu, d, tid), cpu(d.s.mem, SetTrapFlag(n.ctx));
            && d1.executed == NativeCycle(cpu, n).executed
            && d1 == if e.Exit? then d.(phase := Exited(e.code), executed := d1.executed)
                     else Debuggee(d.s.(mem := e.mem, threads := d.s.threads[tid := ClearTrapFlag(e.ctx)]), Stepped,
                                   d1.executed)
  {
    SameEffect(cpu, d.s, b, n, Some(n.ctx.ip));
    UnpatchedIs(d.s, n.mem, b, Some(n.ctx.ip));
    hide UnawareOfBytes, TableIs, Patched;
    assert ClearTrapFlag(SetTrapFlag(n.ctx)) == n.ctx;
  }

  /** The instruction under a breakpoint is stepped over as the target alone executes it
      exactly when it does not look at the trap flag. */
  lemma SteppedOverExactly(cpu: Processor, d: Debuggee, tid: int, b: set<int>, n: Native)
    requires n.exited.None? && UnawareOfBytes(cpu, b, n.mem, n.ctx) && d.executed == n.executed
    requires TableIs(d.s, n.mem, b) && SteppingOver(d, tid, b, n)
    ensures Simulates(Cycle(cpu, d, tid), tid, b, NativeCycle(cpu, n)) <==> BlindToTrapFlag(cpu, d.s.mem, n.ctx)
    ensures BlindToTrapFlag(cpu, d.s.mem, n.ctx) && cpu(n.mem, n.ctx).Next? ==>
              AfterStepping(Cycle(cpu, d, tid), tid, b, NativeCycle(cpu, n), n.ctx.ip)
  {
    var d1 := Cycle(cpu, d, tid);
    StepOverLeaves(cpu, d, tid, b, n);
    SameEffect(cpu, d.s, b, n, Some(n.ctx.ip));
    hide UnawareOfBytes, Cycle, TableIs;
    if BlindToTrapFlag(cpu, d.s.mem, n.ctx) && cpu(n.mem, n.ctx).Next? {
      TableStays(d.s, d1.s, n.mem, cpu(n.mem, n.ctx).mem, b);
      assert AfterStepping(d1, tid, b, NativeCycle(cpu, n), n.ctx.ip);
    }
    if Simulates(d1, tid, b, NativeCycle(cpu, n)) && cpu(n.mem, n.ctx).Next? {
      StepOverSeen(d1, tid, b, NativeCycle(cpu, n), n.ctx.ip, d.s.pending);
    }
  }

  /** A step that fits the native run has left the native memory and registers. */
  lemma StepOverSeen(d1: Debuggee, tid: int, b: set<int>, n1: Native, at: int, pending: map<int, Pending>)
    requires Simulates(d1, tid, b, n1) && n1.exited.None? && (d1.phase.Stepped? || d1.phase.Exited?)
    requires d1.s.pending == pending && tid in pending && pending[tid].addr == at
    ensures d1.phase.Stepped? && tid in d1.s.threads && d1.s.threads[tid] == n1.ctx
    ensures d1.s.mem == Patched(n1.mem, b, Some(at))
  {
  }

  const PUSHF: Processor := (m: Memory, c: Context) =>
    if 8 in m then Next(m[8 := if TrapFlag(c) then 1 else 0], c.(ip := c.ip + 1)) else Exit(0)

  /** An instruction that stores its flags, as `pushf` does, touches no breakpoint byte; stepped
      over it stores a trap flag that it does not find when the target runs alone. */
  lemma FlagsReadUnderStep()
    ensures var m: Memory := map[0 := 0x9C, 8 := 0];
            var c := Context(0, 0, map[]);
            var d := Debuggee(AfterSets(State(m, map[7 := c], map[], 0, map[], map[], {}, 0), [0]), Running, []);
            && UnawareOfBytes(PUSHF, {0}, m, c)
            && NativeRun(PUSHF, Native(m, c, None, []), 1).mem[8] == 0
            && Cycles(PUSHF, d, 7, 3).phase == Stepped && Cycles(PUSHF, d, 7, 3).s.mem[8] == 1
  {
    hide AfterSets, TableIs, UnawareOfBytes, Cycles, Armed, NativeRun;
    var m: Memory := map[0 := 0x9C, 8 := 0];
    var c := Context(0, 0, map[]);
    var s := OneSet(m, c, 7, 0);
    PushfUnaware(m, c);
    TrappedAndStepped(PUSHF, Debuggee(s, Running, []), 7, {0}, Native(m, c, None, []));
    assert 8 in Patched(m, {0}, Some(0));
  }

  /** One breakpoint set on a target that has none. */
  lemma OneSet(m: Memory, c: Context, tid: int, addr: int) returns (s: State)
    requires addr in m
    ensures s == AfterSets(State(m, map[tid := c], map[], 0, map[], map[], {}, 0), [addr])
    ensures TableIs(s, m, {addr}) && Armed(Debuggee(s, Running, []), tid, {addr}, Native(m, c, None, []))
  {
    hide AfterSets;
    var s0 := State(m, map[tid := c], map[], 0, map[], map[], {}, 0);
    assert Patched(m, {}, None) == m && TableIs(s0, m, {});
    hide TableIs;
    s := SetAll(s0, m, {}, [addr]);
    assert {} + (set x | x in [addr]) == {addr};
  }

  lemma PushfUnaware(m: Memory, c: Context)
    requires m == map[0 := 0x9C, 8 := 0] && c == Context(0, 0, map[])
    ensures UnawareOfBytes(PUSHF, {0}, m, c)
    ensures NativeRun(PUSHF, Native(m, c, None, []), 1).mem[8] == 0
  {
    var n := Native(m, c, None, []);
    assert NativeRun(PUSHF, n, 1) == NativeCycle(PUSHF, NativeRun(PUSHF, n, 0));
  }

  /** The three transitions up to the step event of a breakpoint. */
  lemma TrappedAndStepped(cpu: Processor, d: Debuggee, tid: int, b: set<int>, n: Native)
    requires n.exited.None? && UnawareOfBytes(cpu, b, n.mem, n.ctx) && d.executed == n.executed && n.ctx.ip in b
    requires TableIs(d.s, n.mem, b) && Armed(d, tid, b, n)
    ensures var e := cpu(Patched(n.mem, b, Some(n.ctx.ip)), SetTrapFlag(n.ctx));
            e.Next? ==> Cycles(cpu, d, tid, 3).phase == Stepped && Cycles(cpu, d, tid, 3).s.mem == e.mem
  {
    ArmedCycle(cpu, d, tid, b, n);
    var d1 := Cycle(cpu, d, tid);
    TrapCycle(cpu, d1, tid, b, n);
    var d2 := Cycle(cpu, d1, tid);
    hide Cycle, UnawareOfBytes, TableIs;
    assert Simulates(d2, tid, b, n);
    StepOverLeaves(cpu, d2, tid, b, n);
    assert Cycles(cpu, d, tid, 1) == Cycle(cpu, Cycles(cpu, d, tid, 0), tid);
    assert Cycles(cpu, d, tid, 2) == d2;
  }

  lemma RearmCycle(cpu: Processor, d: Debuggee, tid: int, b: set<int>, n: Native, at: int)
    requires n.exited.None? && d.executed == n.executed
    requires TableIs(d.s, n.mem, b) && AfterStepping(d, tid, b, n, at)
    ensures Simulates(Cycle(cpu, d, tid), tid, b, n) && Armed(Cycle(cpu, d, tid), tid, b, n)
  {
    var d1 := Cycle(cpu, d, tid);
    var id := Find(d.s, at).value;
    assert Live(d.s, id);
    TableStays(d.s, d1.s, n.mem, n.mem, b);
    assert d1.s.mem == Patched(n.mem, b, None);
  }

  /** One transition of the debuggee is at most one instruction of the native run. */
  lemma CycleSimulates(cpu: Processor, d: Debuggee, tid: int, b: set<int>, n: Native)
    requires n.exited.None? ==> Unaware(cpu, b, n.mem, n.ctx)
    requires Simulates(d, tid, b, n)
    ensures Simulates(Cycle(cpu, d, tid), tid, b, n) || Simulates(Cycle(cpu, d, tid), tid, b, NativeCycle(cpu, n))
  {
    if n.exited.None? {
      if Armed(d, tid, b, n) { ArmedCycle(cpu, d, tid, b, n); }
      else if AtTrap(d, tid, b, n) { TrapCycle(cpu, d, tid, b, n); }
      else if SteppingOver(d, tid, b, n) { StepOverCycle(cpu, d, tid, b, n); }
      else {
        var at :| AfterStepping(d, tid, b, n, at);
        RearmCycle(cpu, d, tid, b, n, at);
      }
    }
  }

  /** Safety: whatever the debuggee has executed so far, the target alone executes, state by
      state, and an exit under the debugger is the native exit with the native code. */
  lemma {:induction false} Transparent(cpu: Processor, d: Debuggee, tid: int, b: set<int>, n: Native, k: nat)
    returns (j: nat)
    requires Simulates(d, tid, b, n) && AlwaysUnaware(cpu, b, n)
    ensures j <= k && Simulates(Cycles(cpu, d, tid, k), tid, b, NativeRun(cpu, n, j))
    ensures var d1, n1 := Cycles(cpu, d, tid, k), NativeRun(cpu, n, j);
            && d1.executed == n1.executed
            && !d1.phase.Failed?
            && (d1.phase.Exited? <==> n1.exited.Some?)
            && (d1.phase.Exited? ==> n1.exited == Some(d1.phase.code))
    decreases k
  {
    hide Cycle, NativeCycle, Unaware, Simulates;
    if k == 0 {
      j := 0;
    } else {
      j := Transparent(cpu, d, tid, b, n, k - 1);
      CycleSimulates(cpu, Cycles(cpu, d, tid, k - 1), tid, b, NativeRun(cpu, n, j));
      if !Simulates(Cycles(cpu, d, tid, k), tid, b, NativeRun(cpu, n, j)) { j := j + 1; }
    }
    SameMoments(Cycles(cpu, d, tid, k), tid, b, NativeRun(cpu, n, j));
  }

  lemma SameMoments(d: Debuggee, tid: int, b: set<int>, n: Native)
    requires Simulates(d, tid, b, n)
    ensures d.executed == n.executed && !d.phase.Failed?
    ensures d.phase.Exited? <==> n.exited.Some?
    ensures d.phase.Exited? ==> n.exited == Some(d.phase.code)
  {
  }

  /** Four transitions are enough for an instruction under a breakpoint. */
  lemma Advance(cpu: Processor, d: Debuggee, tid: int, b: set<int>, n: Native) returns (k: nat)
    requires n.exited.None? && Unaware(cpu, b, n.mem, n.ctx)
    requires Simulates(d, tid, b, n) && Armed(d, tid, b, n)
    ensures k <= 4
    ensures var d1, n1 := Cycles(cpu, d, tid, k), NativeCycle(cpu, n);
            Simulates(d1, tid, b, n1) && (n1.exited.None? ==> Armed(d1, tid, b, n1))
  {
    hide UnawareOfBytes, Patched;
    var n1 := NativeCycle(cpu, n);
    var d1 := Cycle(cpu, d, tid);
    ArmedCycle(cpu, d, tid, b, n);
    assert Cycles(cpu, d, tid, 1) == Cycle(cpu, Cycles(cpu, d, tid, 0), tid) == d1;
    k := 1;
    if n.ctx.ip in b {
      var d2 := Cycle(cpu, d1, tid);
      TrapCycle(cpu, d1, tid, b, n);
      assert Cycles(cpu, d, tid, 2) == d2;
      var d3 := Cycle(cpu, d2, tid);
      StepOverCycle(cpu, d2, tid, b, n);
      assert Cycles(cpu, d, tid, 3) == d3;
      k := 3;
      if n1.exited.None? {
        RearmCycle(cpu, d3, tid, b, n1, n.ctx.ip);
        assert Cycles(cpu, d, tid, 4) == Cycle(cpu, d3, tid);
        k := 4;
      }
    }
  }

  lemma {:induction false} CyclesCompose(cpu: Processor, d: Debuggee, tid: int, j: nat, k: nat)
    ensures Cycles(cpu, Cycles(cpu, d, tid, j), tid, k) == Cycles(cpu, d, tid, j + k)
    decreases k
  {
    hide Cycle;
    if k > 0 { CyclesCompose(cpu, d, tid, j, k - 1); }
  }

  lemma NativeStops(cpu: Processor, n: Native)
    ensures n.exited.Some? ==> NativeCycle(cpu, n) == n
  {
  }

  /** Progress: the debuggee gets as far as the native run does, and to its exit. */
  lemma {:induction false} Progress(cpu: Processor, d: Debuggee, tid: int, b: set<int>, n: Native, j: nat)
    returns (k: nat)
    requires n.exited.None? && Simulates(d, tid, b, n) && Armed(d, tid, b, n) && AlwaysUnaware(cpu, b, n)
    ensures k <= 4 * j
    ensures var d1, n1 := Cycles(cpu, d, tid, k), NativeRun(cpu, n, j);
            && Simulates(d1, tid, b, n1)
            && (n1.exited.None? ==> Armed(d1, tid, b, n1))
            && d1.executed == n1.executed
            && (n1.exited.Some? ==> d1.phase == Exited(n1.exited.value))
    decreases j
  {
    hide Cycle, NativeCycle, Unaware, Simulates, Armed;
    if j == 0 {
      k := 0;
    } else {
      NativeStops(cpu, NativeRun(cpu, n, j - 1));
      k := Progress(cpu, d, tid, b, n, j - 1);
      var n1 := NativeRun(cpu, n, j - 1);
      if n1.exited.None? {
        var more := Advance(cpu, Cycles(cpu, d, tid, k), tid, b, n1);
        CyclesCompose(cpu, d, tid, k, more);
        k := k + more;
      }
    }
    SameMoments(Cycles(cpu, d, tid, k), tid, b, NativeRun(cpu, n, j));
  }

  /** Breakpoints set one after another on a native state put it in the simulation. */
  lemma {:induction false} SetAll(s: State, m: Memory, b: set<int>, addrs: seq<int>) returns (s1: State)
    requires TableIs(s, m, b) && s.pending == map[] && s.mem == Patched(m, b, None)
    requires forall i :: 0 <= i < |addrs| ==> addrs[i] in m && addrs[i] !in b
    requires forall i, j :: 0 <= i < j < |addrs| ==> addrs[i] != addrs[j]
    ensures s1 == AfterSets(s, addrs)
    ensures var b1 := b + set x | x in addrs;
            TableIs(s1, m, b1) && s1.pending == map[] && s1.mem == Patched(m, b1, None) && s1.threads == s.threads
    decreases |addrs|
  {
    hide AfterSet, TableIs;
    if addrs == [] {
      s1 := s;
      assert b + (set x | x in addrs) == b;
    } else {
      var a := addrs[0];
      var s0 := AfterSet(s, a, AllOk).0;
      SetOne(s, m, b, a);
      s1 := SetAll(s0, m, b + {a}, addrs[1..]);
      assert addrs == [a] + addrs[1..];
      assert b + {a} + (set x | x in addrs[1..]) == b + (set x | x in addrs);
    }
  }

  function AfterSets(s: State, addrs: seq<int>): State
    decreases |addrs|
  {
    if addrs == [] then s else AfterSets(AfterSet(s, addrs[0], AllOk).0, addrs[1..])
  }

  lemma SetOne(s: State, m: Memory, b: set<int>, a: int)
    requires TableIs(s, m, b) && s.mem == Patched(m, b, None) && a in m && a !in b
    ensures var s0 := AfterSet(s, a, AllOk).0;
            && TableIs(s0, m, b + {a}) && s0.mem == Patched(m, b + {a}, None)
            && s0.pending == s.pending && s0.threads == s.threads
  {
    var s0 := AfterSet(s, a, AllOk).0;
    var id := s.counter + 1;
    assert s0.table[id] == Int3(a, m[a]);
    forall x | x in b + {a} ensures Find(s0, x).Some? {
      if x == a { assert LiveAt(s0, id, a); }
      else {
        var i := Find(s, x).value;
        assert LiveAt(s0, i, x) && i <= s.counter by { assert Live(s, i) && i in s.table; }
      }
    }
    forall i: nat | Live(s0, i) ensures s0.table[i].addr in b + {a} && s0.table[i].addr in m
        && s0.table[i].original == m[s0.table[i].addr] {
      if i != id { assert Live(s, i); }
    }
    forall i: nat, j: nat | Live(s0, i) && Live(s0, j) && i != j ensures s0.table[i].addr != s0.table[j].addr {
      if i != id { assert Live(s, i); }
      if j != id { assert Live(s, j); }
    }
  }

  /** The whole story: set breakpoints at distinct addresses of a fresh target, then run it
      with a callback that always continues. At every moment the executed instructions,
      with the memory and registers they saw, are a prefix of the native run; every native
      moment is reached; and the process exits under the debugger exactly when it does
      alone, with the same code. */
  lemma BreakpointsAreTransparent(cpu: Processor, m: Memory, c: Context, tid: int, addrs: seq<int>)
    requires forall i :: 0 <= i < |addrs| ==> addrs[i] in m
    requires forall i, j :: 0 <= i < j < |addrs| ==> addrs[i] != addrs[j]
    requires AlwaysUnaware(cpu, (set x | x in addrs), Native(m, c, None, []))
    ensures var n := Native(m, c, None, []);
            var d := Debuggee(AfterSets(State(m, map[tid := c], map[], 0, map[], map[], {}, 0), addrs), Running, []);
            && (forall k: nat :: DebuggeeFollows(cpu, d, tid, k, n))
            && (forall j: nat :: DebuggeeReaches(cpu, d, tid, n, j))
            && (forall code :: ExitsUnder(cpu, d, tid, code) <==> ExitsAlone(cpu, n, code))
  {
    hide Cycle, NativeCycle, Unaware, AfterSet;
    var n := Native(m, c, None, []);
    var s0 := State(m, map[tid := c], map[], 0, map[], map[], {}, 0);
    var b := set x | x in addrs;
    assert Patched(m, {}, None) == m;
    var s1 := SetAll(s0, m, {}, addrs);
    assert {} + b == b;
    var d := Debuggee(s1, Running, []);
    forall k: nat ensures DebuggeeFollows(cpu, d, tid, k, n) {
      var j := Transparent(cpu, d, tid, b, n, k);
      assert SameSoFar(cpu, d, tid, k, n, j);
    }
    forall j: nat ensures DebuggeeReaches(cpu, d, tid, n, j) {
      var k := Progress(cpu, d, tid, b, n, j);
      assert SameSoFar(cpu, d, tid, k, n, j);
    }
    forall code ensures ExitsUnder(cpu, d, tid, code) <==> ExitsAlone(cpu, n, code) {
      if ExitsUnder(cpu, d, tid, code) {
        var k: nat :| Cycles(cpu, d, tid, k).phase == Exited(code);
        var j := Transparent(cpu, d, tid, b, n, k);
      }
      if ExitsAlone(cpu, n, code) {
        var j: nat :| NativeRun(cpu, n, j).exited == Some(code);
        var k := Progress(cpu, d, tid, b, n, j);
      }
    }
  }

  /** After k transitions the debuggee has executed what the target alone executes in j. */
  ghost predicate SameSoFar(cpu: Processor, d: Debuggee, tid: int, k: nat, n: Native, j: nat) {
    Cycles(cpu, d, tid, k).executed == NativeRun(cpu, n, j).executed
  }

  ghost predicate DebuggeeFollows(cpu: Processor, d: Debuggee, tid: int, k: nat, n: Native) {
    exists j: nat :: j <= k && SameSoFar(cpu, d, tid, k, n, j)
  }

  ghost predicate DebuggeeReaches(cpu: Processor, d: Debuggee, tid: int, n: Native, j: nat) {
    exists k: nat :: k <= 4 * j && SameSoFar(cpu, d, tid, k, n, j)
  }

  ghost predicate ExitsUnder(cpu: Processor, d: Debuggee, tid: int, code: int) {
    exists k: nat :: Cycles(cpu, d, tid, k).phase == Exited(code)
  }

  ghost predicate ExitsAlone(cpu: Processor, n: Native, code: int) {
    exists j: nat :: NativeRun(cpu, n, j).exited == Some(code)
  }
}
