/** Software breakpoints: what each operation does to the target and to the session. */
module Breakpoints {
  import opened Wrappers

  type Byte = x: int | 0 <= x < 256

  const INT3: Byte := 0xCC
  const TRAP_FLAG: int := 0x100

  type Memory = map<int, Byte>

  /** A thread's registers; `eflags` is a nonnegative word. */
  datatype Context = Context(ip: int, eflags: nat, general: map<string, int>)

  predicate TrapFlag(c: Context) { c.eflags / TRAP_FLAG % 2 == 1 }

  function SetTrapFlag(c: Context): (r: Context)
    ensures TrapFlag(r)
    ensures ClearTrapFlag(r) == ClearTrapFlag(c)
  {
    if TrapFlag(c) then c else c.(eflags := c.eflags + TRAP_FLAG)
  }

  function ClearTrapFlag(c: Context): (r: Context)
    ensures !TrapFlag(r) && (!TrapFlag(c) ==> r == c)
  {
    if TrapFlag(c) then c.(eflags := c.eflags - TRAP_FLAG) else c
  }

  /** A record of the session's breakpoint table, which holds both kinds. */
  datatype Record = Int3(addr: int, original: Byte) | Hardware

  datatype Pending = Pending(id: nat, addr: int, original: Byte)

  /** The debug session together with the target it drives. Identifiers are handed out in
      ascending order, so table order is identifier order. */
  datatype State = State(
    mem: Memory,
    threads: map<int, Context>,
    table: map<nat, Record>,
    counter: nat,
    pending: map<int, Pending>,
    hits: map<nat, nat>,
    lost: set<nat>,
    degraded: nat)

  /** How the three calls behind writing one byte turn out: unprotect, write, reprotect. */
  datatype Os = AllOk | NoUnprotect | NoWrite | NoReprotect

  /** The byte is written as soon as the second call succeeds. */
  function Written(m: Memory, addr: int, v: Byte, os: Os): Memory {
    if addr in m && (os.AllOk? || os.NoReprotect?) then m[addr := v] else m
  }

  predicate WriteOk(m: Memory, addr: int, os: Os) { addr in m && os.AllOk? }

  /** What an operation hands back: a value, or an exception. */
  datatype Result<+T> = Ok(value: T) | Raised

  predicate Live(s: State, id: nat) { id in s.table && s.table[id].Int3? }

  predicate LiveAt(s: State, id: nat, addr: int) { Live(s, id) && s.table[id].addr == addr }

  /** The first breakpoint at `addr` among identifiers `from` and up. */
  function FindFrom(s: State, addr: int, from: nat): (r: Option<nat>)
    ensures r.Some? ==> from <= r.value && LiveAt(s, r.value, addr)
    ensures forall id :: from <= id <= s.counter && LiveAt(s, id, addr) ==> r.Some? && r.value <= id
    decreases s.counter + 1 - from
  {
    if from > s.counter then None
    else if LiveAt(s, from, addr) then Some(from)
    else FindFrom(s, addr, from + 1)
  }

  function Find(s: State, addr: int): Option<nat> { FindFrom(s, addr, 0) }

  function AfterSet(s: State, addr: int, os: Os): (State, Result<nat>) {
    if addr !in s.mem then (s, Raised)
    else
      var s1 := s.(mem := Written(s.mem, addr, INT3, os));
      if !WriteOk(s.mem, addr, os) then (s1, Raised)
      else
        var id := s.counter + 1;
        (s1.(counter := id, table := s.table[id := Int3(addr, s.mem[addr])], hits := s.hits[id := 0]), Ok(id))
  }

  /** The record goes first, then the byte comes back. */
  function AfterRemove(s: State, id: nat, os: Os): (State, Result<()>) {
    if !Live(s, id) then (s, Raised)
    else
      var r := s.table[id];
      var s1 := s.(table := s.table - {id}, lost := s.lost - {id}, hits := s.hits - {id},
                   mem := Written(s.mem, r.addr, r.original, os));
      (s1, if WriteOk(s.mem, r.addr, os) then Ok(()) else Raised)
  }

  /** A trap at `addr` on thread `tid`: count it, put the byte back, rewind the thread onto
      it with the trap flag set, and remember to re-arm. `thread` says whether the thread's
      context could be changed; `os2` is the write that re-arms if it could not. */
  function AfterHit(s: State, tid: int, addr: int, os: Os, thread: bool, os2: Os): (State, Result<bool>) {
    match Find(s, addr)
    case None => (s, Ok(false))
    case Some(id) =>
      var original := s.table[id].original;
      var s1 := s.(hits := s.hits[id := (if id in s.hits then s.hits[id] else 0) + 1],
                   mem := Written(s.mem, addr, original, os));
      if !WriteOk(s.mem, addr, os) then (s1, Raised)
      else if !thread || tid !in s.threads then
        var s2 := s1.(mem := Written(s1.mem, addr, INT3, os2));
        if !WriteOk(s1.mem, addr, os2) then (s2, Raised)
        else (s2.(degraded := s.degraded + 1), Ok(true))
      else
        var c := SetTrapFlag(s.threads[tid]);
        (s1.(threads := s.threads[tid := c.(ip := c.ip - 1)],
             pending := s.pending[tid := Pending(id, addr, original)]), Ok(true))
  }

  /** A single-step trap: re-arm what the thread had pending, if it still exists. */
  function AfterStep(s: State, tid: int, os: Os): (State, Result<bool>) {
    if tid !in s.pending then (s, Ok(false))
    else
      var p := s.pending[tid];
      var s1 := s.(pending := s.pending - {tid});
      if p.id !in s.table then (s1, Ok(true))
      else
        (s1.(mem := Written(s.mem, p.addr, INT3, os)), if WriteOk(s.mem, p.addr, os) then Ok(true) else Raised)
  }

  /** Remove every software breakpoint from identifier `from` on; `os` is how the calls turn
      out for each. The first that fails ends it. */
  function AfterRemoveFrom(s: State, from: nat, os: nat -> Os): (State, Result<()>)
    decreases s.counter + 1 - from
  {
    if from > s.counter then (s, Ok(()))
    else if Live(s, from) then
      var (s1, r) := AfterRemove(s, from, os(from));
      if r.Raised? then (s1, Raised) else AfterRemoveFrom(s1, from + 1, os)
    else AfterRemoveFrom(s, from + 1, os)
  }

  class SoftwareBreakpointManager {
    // the target
    var mem: Memory
    var threads: map<int, Context>
    // the session
    var breakpoints: map<nat, Record>
    var bpCounter: nat
    var pendingSingleStep: map<int, Pending>
    // diagnostics
    var hits: map<nat, nat>
    var lost: set<nat>
    var degradedHits: nat

    ghost function Now(): State
      reads this
    {
      State(mem, threads, breakpoints, bpCounter, pendingSingleStep, hits, lost, degradedHits)
    }

    constructor (mem: Memory, threads: map<int, Context>)
      ensures Now() == State(mem, threads, map[], 0, map[], map[], {}, 0)
    {
      this.mem, this.threads := mem, threads;
      breakpoints, bpCounter, pendingSingleStep := map[], 0, map[];
      hits, lost, degradedHits := map[], {}, 0;
    }

    method WriteByte(addr: int, v: Byte, os: Os) returns (ok: bool)
      modifies this`mem
      ensures mem == Written(old(mem), addr, v, os) && ok == WriteOk(old(mem), addr, os)
    {
      if addr !in mem || os.NoUnprotect? || os.NoWrite? { return false; }
      mem := mem[addr := v];
      ok := os.AllOk?;
    }

    method FindBreakpoint(addr: int) returns (r: Option<nat>)
      ensures r == Find(Now(), addr)
    {
      var id := 0;
      while id <= bpCounter
        invariant Find(Now(), addr) == FindFrom(Now(), addr, id)
        decreases bpCounter + 1 - id
      {
        if id in breakpoints && breakpoints[id].Int3? && breakpoints[id].addr == addr { return Some(id); }
        id := id + 1;
      }
      r := None;
    }

    method SetHandle(addr: int, os: Os) returns (r: Result<nat>)
      modifies this
      ensures (Now(), r) == AfterSet(old(Now()), addr, os)
    {
      if addr !in mem { return Raised; }
      var original := mem[addr];
      var ok := WriteByte(addr, INT3, os);
      if !ok { return Raised; }
      bpCounter := bpCounter + 1;
      breakpoints := breakpoints[bpCounter := Int3(addr, original)];
      hits := hits[bpCounter := 0];
      r := Ok(bpCounter);
    }

    method Remove(id: nat, os: Os) returns (r: Result<()>)
      modifies this
      ensures (Now(), r) == AfterRemove(old(Now()), id, os)
    {
      if id !in breakpoints || !breakpoints[id].Int3? { return Raised; }
      var info := breakpoints[id];
      breakpoints := breakpoints - {id};
      lost := lost - {id};
      hits := hits - {id};
      var ok := WriteByte(info.addr, info.original, os);
      r := if ok then Ok(()) else Raised;
    }

    method HandleBreakpointHit(tid: int, addr: int, os: Os, thread: bool, os2: Os) returns (r: Result<bool>)
      modifies this
      ensures (Now(), r) == AfterHit(old(Now()), tid, addr, os, thread, os2)
    {
      var found := FindBreakpoint(addr);
      if found.None? { return Ok(false); }
      var id := found.value;
      var original := breakpoints[id].original;
      hits := hits[id := (if id in hits then hits[id] else 0) + 1];
      var ok := WriteByte(addr, original, os);
      if !ok { return Raised; }
      if !thread || tid !in threads {
        ok := WriteByte(addr, INT3, os2);
        if !ok { return Raised; }
        degradedHits := degradedHits + 1;
        return Ok(true);
      }
      var c := SetTrapFlag(threads[tid]);
      threads := threads[tid := c.(ip := c.ip - 1)];
      pendingSingleStep := pendingSingleStep[tid := Pending(id, addr, original)];
      r := Ok(true);
    }

    method HandleSingleStep(tid: int, os: Os) returns (r: Result<bool>)
      modifies this
      ensures (Now(), r) == AfterStep(old(Now()), tid, os)
    {
      if tid !in pendingSingleStep { return Ok(false); }
      var p := pendingSingleStep[tid];
      pendingSingleStep := pendingSingleStep - {tid};
      if p.id in breakpoints {
        var ok := WriteByte(p.addr, INT3, os);
        if !ok { return Raised; }
      }
      r := Ok(true);
    }

    method RemoveAllBreakpoints(os: nat -> Os) returns (r: Result<()>)
      modifies this
      ensures (Now(), r) == AfterRemoveFrom(old(Now()), 0, os)
    {
      var id := 0;
      while id <= bpCounter
        invariant AfterRemoveFrom(old(Now()), 0, os) == AfterRemoveFrom(Now(), id, os)
        decreases bpCounter + 1 - id
      {
        if id in breakpoints && breakpoints[id].Int3? {
          var one := Remove(id, os(id));
          if one.Raised? { return Raised; }
        }
        id := id + 1;
      }
      r := Ok(());
    }
  }
}
