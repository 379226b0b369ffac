/** What software breakpoints keep true of the target's memory, over every run. */
module BreakpointSafety {
  import opened Wrappers
  import opened Breakpoints

  /** Some thread is about to re-arm breakpoint `id`. */
  ghost predicate Stepping(s: State, id: nat) {
    exists tid :: tid in s.pending && s.pending[tid].id == id
  }

  /** Records name mapped addresses, each at most once, and save the pristine byte. */
  ghost predicate TableOk(s: State, pristine: Memory) {
    && (forall id :: id in s.table ==> id <= s.counter)
    && (forall id: nat :: Live(s, id) ==>
          s.table[id].addr in pristine && s.table[id].original == pristine[s.table[id].addr])
    && (forall i: nat, j: nat :: Live(s, i) && Live(s, j) && i != j ==> s.table[i].addr != s.table[j].addr)
  }

  /** A pending step was scheduled by a breakpoint that existed, and agrees with its record
      as long as that record is there. */
  ghost predicate PendingOk(s: State) {
    forall tid :: tid in s.pending ==>
      var p := s.pending[tid];
      && p.id <= s.counter
      && (p.id in s.table ==> s.table[p.id] == Int3(p.addr, p.original))
  }

  predicate Free(s: State, addr: int) { forall id :: id in s.table ==> !LiveAt(s, id, addr) }

  /** The byte at a breakpoint: 0xCC, or the pristine one while some thread steps over it. */
  ghost predicate ByteOk(s: State, pristine: Memory, id: nat)
    requires Live(s, id) && s.table[id].addr in s.mem && s.table[id].addr in pristine
  {
    var a := s.table[id].addr;
    s.mem[a] == INT3 || (s.mem[a] == pristine[a] && Stepping(s, id))
  }

  /** `pristine` is the memory the target would have without a debugger. */
  ghost predicate Inv(s: State, pristine: Memory) {
    && s.mem.Keys == pristine.Keys
    && TableOk(s, pristine)
    && PendingOk(s)
    && (forall id: nat :: Live(s, id) ==> ByteOk(s, pristine, id))
    && (forall a :: a in s.mem && Free(s, a) ==> s.mem[a] == pristine[a])
  }

  // ----- one operation, when the operating system cooperates -----

  /** Setting at a mapped address keeps the invariant exactly when no breakpoint is there. */
  lemma SetKeepsExactly(s: State, pristine: Memory, addr: int)
    requires Inv(s, pristine)
    ensures Inv(AfterSet(s, addr, AllOk).0, pristine) <==> (addr in pristine ==> Free(s, addr))
    ensures AfterSet(s, addr, AllOk).1.Ok? <==> addr in pristine
  {
    var s1 := AfterSet(s, addr, AllOk).0;
    var id := s.counter + 1;
    if addr in s.mem && Free(s, addr) {
      forall i | Live(s, i) ensures s1.table[i] == s.table[i] && ByteOk(s1, pristine, i) {
        assert ByteOk(s, pristine, i);
        if Stepping(s, i) { var t :| t in s.pending && s.pending[t].id == i; assert t in s1.pending; }
      }
      forall a | a in s1.mem && Free(s1, a) ensures s1.mem[a] == pristine[a] {
        assert LiveAt(s1, id, addr);
        assert Free(s, a) by { forall i | i in s.table ensures !LiveAt(s, i, a) { assert i in s1.table; } }
      }
      forall t | t in s1.pending && s1.pending[t].id in s1.table
        ensures s1.table[s1.pending[t].id] == Int3(s1.pending[t].addr, s1.pending[t].original)
      {
        assert t in s.pending;
      }
    } else if addr in s.mem {
      var i :| i in s.table && LiveAt(s, i, addr);
      assert Live(s1, i) && Live(s1, id) && s1.table[i].addr == s1.table[id].addr;
    }
  }

  lemma RemoveKeeps(s: State, pristine: Memory, id: nat)
    requires Inv(s, pristine)
    ensures var (s1, r) := AfterRemove(s, id, AllOk);
            && Inv(s1, pristine) && (r.Ok? <==> Live(s, id))
            && (Live(s, id) ==> s1.mem == s.mem[s.table[id].addr := pristine[s.table[id].addr]])
  {
    var s1 := AfterRemove(s, id, AllOk).0;
    if Live(s, id) {
      var addr := s.table[id].addr;
      forall i | Live(s1, i) ensures Live(s, i) && s1.table[i].addr != addr && ByteOk(s1, pristine, i) {
        assert ByteOk(s, pristine, i);
        if Stepping(s, i) { var t :| t in s.pending && s.pending[t].id == i; assert t in s1.pending; }
      }
      forall a | a in s1.mem && Free(s1, a) ensures s1.mem[a] == pristine[a] {
        if a != addr {
          assert Free(s, a) by {
            forall i | i in s.table ensures !LiveAt(s, i, a) { if i != id { assert i in s1.table; } }
          }
        }
      }
    }
  }

  /** What a second trap may do to the step a thread already had pending: the new entry
      replaces the old one, which matters only if the old one was the last to re-arm a
      breakpoint that is still there and still disarmed. */
  ghost predicate NothingForgotten(s: State, tid: int, id: nat) {
    tid in s.pending && Live(s, s.pending[tid].id) && s.pending[tid].id != id ==>
      || (s.pending[tid].addr in s.mem && s.mem[s.pending[tid].addr] == INT3)
      || exists t :: t in s.pending && t != tid && s.pending[t].id == s.pending[tid].id
  }

  /** A trap keeps the invariant exactly when it does not forget a pending step. */
  lemma HitKeepsExactly(s: State, pristine: Memory, tid: int, addr: int)
    requires Inv(s, pristine) && tid in s.threads
    ensures var s1 := AfterHit(s, tid, addr, AllOk, true, AllOk).0;
            Inv(s1, pristine) <==> (Find(s, addr).Some? ==> NothingForgotten(s, tid, Find(s, addr).value))
  {
    var found := Find(s, addr);
    if found.Some? {
      var id := found.value;
      var s1 := AfterHit(s, tid, addr, AllOk, true, AllOk).0;
      HitParts(s, pristine, tid, addr, id, s1);
      if NothingForgotten(s, tid, id) {
        forall i | Live(s1, i) ensures ByteOk(s1, pristine, i) {
          assert Live(s, i) && ByteOk(s, pristine, i);
          if i != id && s.mem[s.table[i].addr] != INT3 {
            var t :| t in s.pending && s.pending[t].id == i;
            if t == tid {
              var u :| u in s.pending && u != tid && s.pending[u].id == i;
              assert u in s1.pending && s1.pending[u].id == i;
            } else {
              assert t in s1.pending && s1.pending[t].id == i;
            }
          }
        }
      } else {
        var forgotten := s.pending[tid].id;
        assert Live(s1, forgotten);
        assert !Stepping(s1, forgotten) by {
          forall t | t in s1.pending ensures s1.pending[t].id != forgotten {
            if t != tid { assert t in s.pending; }
          }
        }
        assert !ByteOk(s1, pristine, forgotten);
      }
    }
  }

  /** The parts of the invariant a trap never touches. */
  lemma HitParts(s: State, pristine: Memory, tid: int, addr: int, id: nat, s1: State)
    requires Inv(s, pristine) && tid in s.threads && Find(s, addr) == Some(id)
    requires s1 == AfterHit(s, tid, addr, AllOk, true, AllOk).0
    ensures s1.mem.Keys == pristine.Keys && s1.table == s.table && TableOk(s1, pristine) && PendingOk(s1)
    ensures s1.mem[addr] == pristine[addr] && Stepping(s1, id)
    ensures forall a :: a in s1.mem && Free(s1, a) ==> s1.mem[a] == pristine[a]
    ensures forall i :: Live(s1, i) && i != id ==> s1.mem[s.table[i].addr] == s.mem[s.table[i].addr]
  {
    assert s.table[id] == Int3(addr, pristine[addr]);
    assert tid in s1.pending;
    forall a | a in s1.mem && Free(s1, a) ensures s1.mem[a] == pristine[a] {
      assert LiveAt(s, id, addr);
      assert Free(s, a) by { forall i | i in s.table ensures !LiveAt(s, i, a) { assert !LiveAt(s1, i, a); } }
    }
    forall t | t in s1.pending && s1.pending[t].id in s1.table
      ensures s1.table[s1.pending[t].id] == Int3(s1.pending[t].addr, s1.pending[t].original)
    {
      if t != tid { assert t in s.pending; }
    }
  }

  lemma StepKeeps(s: State, pristine: Memory, tid: int)
    requires Inv(s, pristine)
    ensures var (s1, r) := AfterStep(s, tid, AllOk);
            Inv(s1, pristine) && r == Ok(tid in s.pending)
  {
    var s1 := AfterStep(s, tid, AllOk).0;
    if tid in s.pending {
      var p := s.pending[tid];
      assert p.id in s.table ==> LiveAt(s, p.id, p.addr);
      forall i | Live(s1, i) ensures ByteOk(s1, pristine, i) {
        assert Live(s, i) && ByteOk(s, pristine, i);
        if i != p.id && s.mem[s.table[i].addr] != INT3 {
          var t :| t in s.pending && s.pending[t].id == i;
          assert t in s1.pending && s1.pending[t].id == i;
        }
      }
      forall a | a in s1.mem && Free(s1, a) ensures s1.mem[a] == pristine[a] {
        assert Free(s, a) by { forall i | i in s.table ensures !LiveAt(s, i, a) { assert !LiveAt(s1, i, a); } }
      }
    }
  }

  // ----- every run -----

  datatype Action =
    | DoSet(addr: int)
    | DoRemove(id: nat)
    | DoHit(tid: int, at: int)
    | DoStep(tid: int)
    | DoWrite(addr: int, v: Byte)              // by the target itself
    | DoMove(tid: int, to: Context)            // a thread starts or runs

  /** The state and the memory the target would have without a debugger. */
  function Apply(s: State, pristine: Memory, a: Action): (State, Memory) {
    match a
    case DoSet(addr) => (AfterSet(s, addr, AllOk).0, pristine)
    case DoRemove(id) => (AfterRemove(s, id, AllOk).0, pristine)
    case DoHit(tid, at) => (AfterHit(s, tid, at, AllOk, true, AllOk).0, pristine)
    case DoStep(tid) => (AfterStep(s, tid, AllOk).0, pristine)
    case DoWrite(addr, v) =>
      if addr in s.mem then (s.(mem := s.mem[addr := v]), if addr in pristine then pristine[addr := v] else pristine)
      else (s, pristine)
    case DoMove(tid, to) => (s.(threads := s.threads[tid := to]), pristine)
  }

  /** What is asked of callers and target: no second breakpoint at an address, no trap on a
      thread before the step it has pending for another breakpoint is reported, and no
      store by the target on top of a breakpoint. */
  ghost predicate Allowed(s: State, a: Action) {
    match a
    case DoSet(addr) => Free(s, addr)
    case DoHit(tid, at) =>
      tid in s.threads && (tid in s.pending && Live(s, s.pending[tid].id) ==> s.pending[tid].addr == at)
    case DoWrite(addr, _) => Free(s, addr)
    case _ => true
  }

  ghost predicate AllowedRun(s: State, pristine: Memory, actions: seq<Action>)
    decreases |actions|
  {
    actions == [] ||
    (Allowed(s, actions[0]) &&
     var (s1, p1) := Apply(s, pristine, actions[0]);
     AllowedRun(s1, p1, actions[1..]))
  }

  function ApplyAll(s: State, pristine: Memory, actions: seq<Action>): (State, Memory)
    decreases |actions|
  {
    if actions == [] then (s, pristine)
    else
      var (s1, p1) := Apply(s, pristine, actions[0]);
      ApplyAll(s1, p1, actions[1..])
  }

  lemma ActionKeeps(s: State, pristine: Memory, a: Action)
    requires Inv(s, pristine) && Allowed(s, a)
    ensures var (s1, p1) := Apply(s, pristine, a); Inv(s1, p1)
  {
    match a
    case DoSet(addr) => SetKeepsExactly(s, pristine, addr);
    case DoRemove(id) => RemoveKeeps(s, pristine, id);
    case DoHit(tid, at) => HitKeepsExactly(s, pristine, tid, at);
    case DoStep(tid) => StepKeeps(s, pristine, tid);
    case DoWrite(addr, v) =>
      var (s1, p1) := Apply(s, pristine, a);
      forall i | Live(s1, i) ensures ByteOk(s1, p1, i) {
        assert ByteOk(s, pristine, i);
        if Stepping(s, i) { var t :| t in s.pending && s.pending[t].id == i; assert t in s1.pending; }
      }
      forall b | b in s1.mem && Free(s1, b) ensures s1.mem[b] == p1[b] {
        assert Free(s, b) by { forall i | i in s.table ensures !LiveAt(s, i, b) { assert !LiveAt(s1, i, b); } }
      }
    case DoMove(tid, to) =>
      var s1 := Apply(s, pristine, a).0;
      forall i | Live(s1, i) ensures ByteOk(s1, pristine, i) {
        assert ByteOk(s, pristine, i);
        if Stepping(s, i) { var t :| t in s.pending && s.pending[t].id == i; assert t in s1.pending; }
      }
      forall b | b in s1.mem && Free(s1, b) ensures s1.mem[b] == pristine[b] {
        assert Free(s, b) by { forall i | i in s.table ensures !LiveAt(s, i, b) { assert !LiveAt(s1, i, b); } }
      }
  }

  /** The memory invariant holds after every allowed interleaving. */
  lemma {:induction false} RunKeeps(s: State, pristine: Memory, actions: seq<Action>)
    requires Inv(s, pristine) && AllowedRun(s, pristine, actions)
    ensures var (s1, p1) := ApplyAll(s, pristine, actions); Inv(s1, p1)
    decreases |actions|
  {
    if actions != [] {
      ActionKeeps(s, pristine, actions[0]);
      var (s1, p1) := Apply(s, pristine, actions[0]);
      RunKeeps(s1, p1, actions[1..]);
    }
  }

  // ----- the answers -----

  /** What an operation answers: a hit is ours exactly if a breakpoint is there, and then raises
      exactly if its byte, or with the thread gone the 0xCC, cannot be written; a step is ours
      exactly if the thread has one pending, and raises exactly if that breakpoint is there and
      cannot be re-armed. */
  lemma HitAnswersExactly(s: State, tid: int, at: int, os: Os, thread: bool, os2: Os)
    requires forall id :: id in s.table ==> id <= s.counter
    ensures var r := AfterHit(s, tid, at, os, thread, os2).1;
            var ours := exists id: nat :: LiveAt(s, id, at);
            && (r == Ok(false) <==> !ours)
            && (r.Raised? <==> ours && (at !in s.mem || !os.AllOk? || ((!thread || tid !in s.threads) && !os2.AllOk?)))
  {
  }

  lemma StepAnswersExactly(s: State, tid: int, os: Os)
    ensures var r := AfterStep(s, tid, os).1;
            && (r == Ok(false) <==> tid !in s.pending)
            && (r.Raised? <==> tid in s.pending && s.pending[tid].id in s.table
                               && (s.pending[tid].addr !in s.mem || !os.AllOk?))
  {
  }

  /** Setting succeeds exactly if the byte can be read and 0xCC written; the breakpoint is then the
      newest, and has the byte that was there. */
  lemma SetAnswersExactly(s: State, addr: int, os: Os)
    ensures var (s1, r) := AfterSet(s, addr, os);
            && (r.Ok? <==> addr in s.mem && os.AllOk?)
            && (r.Ok? ==> r.value == s.counter + 1 == s1.counter
                          && s1.table == s.table[r.value := Int3(addr, s.mem[addr])])
            && (r.Raised? ==> s1.table == s.table && s1.counter == s.counter)
  {
  }

  /** Removing succeeds exactly if there is such a breakpoint and its byte can be written; the
      record is gone either way, with its count and any note that it was lost. */
  lemma RemoveAnswersExactly(s: State, id: nat, os: Os)
    ensures AfterRemove(s, id, os).1.Ok? <==> Live(s, id) && s.table[id].addr in s.mem && os.AllOk?
    ensures AfterRemove(s, id, os).0.table == if Live(s, id) then s.table - {id} else s.table
    ensures Live(s, id) ==>
              var s1 := AfterRemove(s, id, os).0; s1.lost == s.lost - {id} && CountOf(s1, id) == 0
  {
  }

  // ----- the counts -----

  /** However its calls turn out, a hit counts once on the breakpoint at the address, if there is
      one, and on no other; and it is degraded exactly if the thread could not be set up but
      the breakpoint was re-armed. */
  lemma HitCountsOnce(s: State, tid: int, at: int, os: Os, thread: bool, os2: Os, id: nat)
    requires Live(s, id)
    ensures var (s1, _) := AfterHit(s, tid, at, os, thread, os2);
            && CountOf(s1, id) == CountOf(s, id) + (if Find(s, at) == Some(id) then 1 else 0)
            && s1.degraded == s.degraded + if Degrades(s, tid, at, os, thread, os2) then 1 else 0
  {
  }

  function CountOf(s: State, id: nat): nat { if id in s.hits then s.hits[id] else 0 }

  predicate Degrades(s: State, tid: int, at: int, os: Os, thread: bool, os2: Os) {
    Find(s, at).Some? && at in s.mem && os.AllOk? && (!thread || tid !in s.threads) && os2.AllOk?
  }

  /** How often a run traps at breakpoint `id`. */
  ghost function Traps(s: State, pristine: Memory, actions: seq<Action>, id: nat): nat
    decreases |actions|
  {
    if actions == [] then 0
    else
      var (s1, p1) := Apply(s, pristine, actions[0]);
      (if actions[0].DoHit? && LiveAt(s, id, actions[0].at) then 1 else 0) + Traps(s1, p1, actions[1..], id)
  }

  /** Over every run in which it stays, a breakpoint's count grows by the traps at it. */
  lemma {:induction false} CountsAreTraps(s: State, pristine: Memory, actions: seq<Action>, id: nat)
    requires Inv(s, pristine) && AllowedRun(s, pristine, actions) && Live(s, id)
    requires DoRemove(id) !in actions
    ensures CountOf(ApplyAll(s, pristine, actions).0, id) == CountOf(s, id) + Traps(s, pristine, actions, id)
    decreases |actions|
  {
    hide Inv, AfterSet, AfterHit, AfterStep, AfterRemove, Allowed, Live, LiveAt;
    if actions != [] {
      var (s1, p1) := Apply(s, pristine, actions[0]);
      assert actions == [actions[0]] + actions[1..];
      ActionKeeps(s, pristine, actions[0]);
      ActionCounts(s, pristine, actions[0], id);
      CountsAreTraps(s1, p1, actions[1..], id);
    }
  }

  lemma ActionCounts(s: State, pristine: Memory, a: Action, id: nat)
    requires Inv(s, pristine) && Live(s, id) && a != DoRemove(id)
    ensures var s1 := Apply(s, pristine, a).0;
            && Live(s1, id)
            && CountOf(s1, id) == CountOf(s, id) + if a.DoHit? && LiveAt(s, id, a.at) then 1 else 0
  {
    match a
    case DoHit(tid, at) =>
      HitCountsOnce(s, tid, at, AllOk, true, AllOk, id);
      assert LiveAt(s, id, at) ==> id <= s.counter;
    case DoSet(addr) => assert id <= s.counter;
    case _ =>
  }

  /** It starts at none. */
  lemma CountStartsAtNone(s: State, addr: int)
    requires AfterSet(s, addr, AllOk).1.Ok?
    ensures CountOf(AfterSet(s, addr, AllOk).0, AfterSet(s, addr, AllOk).1.value) == 0
    ensures forall id: nat :: id <= s.counter ==> CountOf(AfterSet(s, addr, AllOk).0, id) == CountOf(s, id)
  {
  }

  // ----- removing everything -----

  /** The removal of breakpoint `id` is reached, and its byte comes back. */
  ghost predicate GivenBack(s: State, os: nat -> Os, from: nat, id: nat) {
    && from <= id && (os(id).AllOk? || os(id).NoReprotect?)
    && forall j: nat :: from <= j < id && Live(s, j) ==> os(j).AllOk?
  }

  /** One removal of the loop, from `s` to `s1`. */
  ghost predicate OneRemoved(s: State, pristine: Memory, id: nat, os: Os, s1: State) {
    && Live(s, id) && s.table[id].addr in s.mem && s.table[id].addr in pristine
    && s1.pending == s.pending && s1.counter == s.counter
    && s1.mem == (if os.AllOk? || os.NoReprotect? then s.mem[s.table[id].addr := pristine[s.table[id].addr]] else s.mem)
    && (forall i: nat :: Live(s1, i) <==> Live(s, i) && i != id)
    && (forall i: nat :: Live(s1, i) ==> s1.table[i] == s.table[i] && s.table[i].addr != s.table[id].addr)
    && Free(s1, s.table[id].addr) && (forall a :: Free(s, a) ==> Free(s1, a) && a != s.table[id].addr)
  }

  lemma RemoveOne(s: State, pristine: Memory, id: nat, os: Os)
    requires Inv(s, pristine) && Live(s, id)
    ensures var (s1, r) := AfterRemove(s, id, os);
            OneRemoved(s, pristine, id, os, s1) && (r.Ok? <==> os.AllOk?) && (r.Ok? ==> Inv(s1, pristine))
  {
    var s1 := AfterRemove(s, id, os).0;
    var addr := s.table[id].addr;
    RemoveKeeps(s, pristine, id);
    forall a | Free(s, a) ensures Free(s1, a) && a != addr {
      assert LiveAt(s, id, addr);
      forall i | i in s1.table ensures !LiveAt(s1, i, a) { assert !LiveAt(s, i, a); }
    }
    assert Free(s1, addr) by {
      forall i | i in s1.table ensures !LiveAt(s1, i, addr) { assert Live(s1, i) ==> Live(s, i); }
    }
  }

  /** What removing from an identifier on has done: each byte given back as far as the loop
      came, the others as they were. */
  ghost predicate RemovedFrom(s: State, pristine: Memory, os: nat -> Os, from: nat, s1: State, ok: bool) {
    && (ok <==> forall id: nat :: id >= from && Live(s, id) ==> os(id).AllOk?)
    && s1.mem.Keys == s.mem.Keys && s1.pending == s.pending
    && (forall id: nat :: Live(s, id) ==>
          var a := s.table[id].addr;
          && a in s.mem && a in pristine
          && s1.mem[a] == if GivenBack(s, os, from, id) then pristine[a] else s.mem[a])
    && (forall a :: a in s.mem && Free(s, a) ==> s1.mem[a] == s.mem[a])
    && (forall id: nat :: Live(s1, id) ==> Live(s, id) && (ok ==> id < from))
  }

  lemma OneThenRest(s: State, pristine: Memory, os: nat -> Os, from: nat, s1: State, s2: State, ok: bool)
    requires OneRemoved(s, pristine, from, os(from), s1) && os(from).AllOk?
    requires RemovedFrom(s1, pristine, os, from + 1, s2, ok)
    ensures RemovedFrom(s, pristine, os, from, s2, ok)
  {
    forall id: nat | Live(s, id) && id != from
      ensures GivenBack(s, os, from, id) <==> GivenBack(s1, os, from + 1, id) {
    }
  }

  lemma OneThenStop(s: State, pristine: Memory, os: nat -> Os, from: nat, s1: State)
    requires OneRemoved(s, pristine, from, os(from), s1) && !os(from).AllOk? && Inv(s, pristine)
    ensures RemovedFrom(s, pristine, os, from, s1, false)
  {
    forall id: nat | Live(s, id) && id != from ensures !GivenBack(s, os, from, id) { }
  }

  lemma NoneThenRest(s: State, pristine: Memory, os: nat -> Os, from: nat, s2: State, ok: bool)
    requires RemovedFrom(s, pristine, os, from + 1, s2, ok) && !Live(s, from)
    ensures RemovedFrom(s, pristine, os, from, s2, ok)
  {
    forall id: nat | Live(s, id) ensures GivenBack(s, os, from, id) <==> GivenBack(s, os, from + 1, id) { }
  }

  lemma NothingRemoved(s: State, pristine: Memory, os: nat -> Os, from: nat)
    requires Inv(s, pristine) && from > s.counter
    ensures RemovedFrom(s, pristine, os, from, s, true)
  {
  }

  lemma {:induction false} RemoveFromExactly(s: State, pristine: Memory, from: nat, os: nat -> Os)
    requires Inv(s, pristine)
    ensures var (s1, r) := AfterRemoveFrom(s, from, os);
            RemovedFrom(s, pristine, os, from, s1, r.Ok?) && (r.Ok? ==> Inv(s1, pristine))
    decreases s.counter + 1 - from
  {
    hide Inv, OneRemoved, RemovedFrom, AfterRemove;
    if from > s.counter {
      NothingRemoved(s, pristine, os, from);
    } else if Live(s, from) {
      var (s1, r) := AfterRemove(s, from, os(from));
      RemoveOne(s, pristine, from, os(from));
      if r.Ok? {
        CounterStays(s, pristine, from, os(from), s1);
        RemoveFromExactly(s1, pristine, from + 1, os);
        var (s2, r2) := AfterRemoveFrom(s1, from + 1, os);
        OneThenRest(s, pristine, os, from, s1, s2, r2.Ok?);
      } else {
        OneThenStop(s, pristine, os, from, s1);
      }
    } else {
      RemoveFromExactly(s, pristine, from + 1, os);
      var (s2, r2) := AfterRemoveFrom(s, from + 1, os);
      NoneThenRest(s, pristine, os, from, s2, r2.Ok?);
    }
  }

  lemma CounterStays(s: State, pristine: Memory, id: nat, os: Os, s1: State)
    requires OneRemoved(s, pristine, id, os, s1)
    ensures s1.counter == s.counter
  {
  }

  /** Only step reports arrive any more. */
  predicate StepsOnly(actions: seq<Action>) {
    forall k :: 0 <= k < |actions| ==> actions[k].DoStep?
  }

  /** Removing all breakpoints stops at the first that fails. It restores memory byte for byte,
      pending steps or not, exactly when each breakpoint is either reached and given back, or
      holds its pristine byte already. If none fails, the steps still to be reported do not
      disturb it. */
  lemma RemoveAllRestoresExactly(s: State, pristine: Memory, os: nat -> Os, later: seq<Action>)
    requires Inv(s, pristine) && StepsOnly(later)
    ensures var (s1, r) := AfterRemoveFrom(s, 0, os);
            && (r.Ok? <==> forall id: nat :: Live(s, id) ==> os(id).AllOk?)
            && (s1.mem == pristine <==>
                  forall id: nat :: Live(s, id) ==>
                    GivenBack(s, os, 0, id) || s.mem[s.table[id].addr] == pristine[s.table[id].addr])
            && (r.Ok? ==> s1.mem == pristine && ApplyAll(s1, pristine, later).0.mem == pristine)
  {
    RemoveFromExactly(s, pristine, 0, os);
    var (s1, r) := AfterRemoveFrom(s, 0, os);
    hide AfterRemoveFrom;
    MemoryGivenBack(s, pristine, os, s1, r.Ok?);
    if r.Ok? {
      forall id: nat | Live(s, id) ensures GivenBack(s, os, 0, id) { }
      StepsHarmless(s1, pristine, later);
    }
  }

  lemma MemoryGivenBack(s: State, pristine: Memory, os: nat -> Os, s1: State, ok: bool)
    requires Inv(s, pristine) && RemovedFrom(s, pristine, os, 0, s1, ok)
    ensures s1.mem == pristine <==>
              forall id: nat :: Live(s, id) ==>
                GivenBack(s, os, 0, id) || s.mem[s.table[id].addr] == pristine[s.table[id].addr]
  {
    hide GivenBack;
    if forall id: nat :: Live(s, id) ==>
         GivenBack(s, os, 0, id) || s.mem[s.table[id].addr] == pristine[s.table[id].addr] {
      forall a | a in s1.mem ensures s1.mem[a] == pristine[a] {
        if !Free(s, a) { var id :| id in s.table && LiveAt(s, id, a); }
      }
    }
  }

  lemma {:induction false} StepsHarmless(s: State, pristine: Memory, later: seq<Action>)
    requires StepsOnly(later) && PendingOk(s) && forall id: nat :: id in s.table ==> !Live(s, id)
    ensures ApplyAll(s, pristine, later).0.mem == s.mem
    decreases |later|
  {
    if later != [] {
      var s1 := Apply(s, pristine, later[0]).0;
      if later[0].tid in s.pending { assert s.pending[later[0].tid].id !in s.table by {
        var p := s.pending[later[0].tid];
        assert p.id in s.table ==> Live(s, p.id);
      } }
      StepsHarmless(s1, pristine, later[1..]);
    }
  }

  // ----- when a call fails -----

  /** A failed `set` leaves nothing behind, unless only restoring the page protection
      failed: then the 0xCC is already in place and no record mentions it. */
  lemma FailedSetExactly(s: State, pristine: Memory, addr: int, os: Os)
    requires Inv(s, pristine) && Free(s, addr) && addr in pristine
    ensures var s1 := AfterSet(s, addr, os).0;
            Inv(s1, pristine) <==> os != NoReprotect || pristine[addr] == INT3
  {
    var s1 := AfterSet(s, addr, os).0;
    if os == AllOk { SetKeepsExactly(s, pristine, addr); }
    else if os == NoReprotect {
      assert Free(s1, addr) by { forall i | i in s1.table ensures !LiveAt(s1, i, addr) { assert !LiveAt(s, i, addr); } }
      if pristine[addr] == INT3 { assert s1.mem == s.mem; }
    }
  }

  /** A failed `remove` has already dropped the record, so it restores the byte or leaves
      a stray 0xCC behind. */
  lemma FailedRemoveExactly(s: State, pristine: Memory, id: nat, os: Os)
    requires Inv(s, pristine) && Live(s, id)
    ensures var s1 := AfterRemove(s, id, os).0;
            var a := s.table[id].addr;
            Inv(s1, pristine) <==> os.AllOk? || os.NoReprotect? || s.mem[a] == pristine[a]
  {
    var s1, s2 := AfterRemove(s, id, os).0, AfterRemove(s, id, AllOk).0;
    var a := s.table[id].addr;
    RemoveKeeps(s, pristine, id);
    if s1.mem == s2.mem {
      assert s1 == s2;
    } else {
      assert Free(s1, a) by {
        forall i | i in s1.table ensures !LiveAt(s1, i, a) { assert Live(s1, i) ==> Live(s, i); }
      }
    }
    if s.mem[a] == pristine[a] { assert s2.mem == s.mem; }
  }

  /** Changing the byte of one breakpoint, and counters, is all these operations do. */
  lemma OneByteExactly(s: State, s1: State, pristine: Memory, id: nat)
    requires Inv(s, pristine) && Live(s, id)
    requires s1.table == s.table && s1.counter == s.counter
    requires s.table[id].addr in s1.mem
    requires s1.mem == s.mem[s.table[id].addr := s1.mem[s.table[id].addr]]
    requires forall t :: t in s1.pending ==> t in s.pending && s1.pending[t] == s.pending[t]
    requires forall t :: t in s.pending && s.pending[t].id != id ==> t in s1.pending
    ensures Inv(s1, pristine) <==> ByteOk(s1, pristine, id)
  {
    var addr := s.table[id].addr;
    if ByteOk(s1, pristine, id) {
      forall i: nat | Live(s1, i) ensures ByteOk(s1, pristine, i) {
        assert ByteOk(s, pristine, i);
        if i != id && Stepping(s, i) { var t :| t in s.pending && s.pending[t].id == i; assert t in s1.pending; }
      }
      forall a | a in s1.mem && Free(s1, a) ensures s1.mem[a] == pristine[a] {
        assert LiveAt(s1, id, addr);
        assert Free(s, a) by { forall i | i in s.table ensures !LiveAt(s, i, a) { assert !LiveAt(s1, i, a); } }
      }
    }
  }

  /** A trap whose first write fails, or whose thread cannot be changed, leaves the
      breakpoint disarmed with nobody to re-arm it exactly when the byte was put back and
      the attempt to trap it again did not reach the target. */
  lemma FailedHitExactly(s: State, pristine: Memory, tid: int, addr: int, os: Os, os2: Os)
    requires Inv(s, pristine) && Find(s, addr).Some?
    ensures var s1 := AfterHit(s, tid, addr, os, false, os2).0;
            var disarmed := os.NoReprotect? || (os.AllOk? && (os2.NoUnprotect? || os2.NoWrite?));
            Inv(s1, pristine) <==> !disarmed || Stepping(s, Find(s, addr).value) || pristine[addr] == INT3
  {
    var id := Find(s, addr).value;
    var s1 := AfterHit(s, tid, addr, os, false, os2).0;
    assert ByteOk(s, pristine, id);
    assert s1.pending == s.pending;
    assert s1.mem == s.mem[addr := s1.mem[addr]];
    OneByteExactly(s, s1, pristine, id);
    assert Stepping(s1, id) <==> Stepping(s, id);
  }

  /** A single step whose write fails forgets to re-arm, unless another thread still has
      the same breakpoint pending. */
  lemma FailedStepExactly(s: State, pristine: Memory, tid: int, os: Os)
    requires Inv(s, pristine) && tid in s.pending && s.pending[tid].id in s.table
    ensures var p := s.pending[tid];
            Inv(AfterStep(s, tid, os).0, pristine) <==>
              os.AllOk? || os.NoReprotect? || s.mem[p.addr] == INT3
              || exists t :: t in s.pending && t != tid && s.pending[t].id == p.id
  {
    var p := s.pending[tid];
    var s1 := AfterStep(s, tid, os).0;
    assert LiveAt(s, p.id, p.addr) && ByteOk(s, pristine, p.id);
    assert s1.mem == s.mem[p.addr := s1.mem[p.addr]];
    OneByteExactly(s, s1, pristine, p.id);
    assert Stepping(s1, p.id) <==> exists t :: t in s.pending && t != tid && s.pending[t].id == p.id by {
      if Stepping(s1, p.id) { var t :| t in s1.pending && s1.pending[t].id == p.id; assert t in s.pending && t != tid; }
      if exists t :: t in s.pending && t != tid && s.pending[t].id == p.id {
        var t :| t in s.pending && t != tid && s.pending[t].id == p.id;
        assert t in s1.pending;
      }
    }
  }

  /** Setting twice at one address, then removing in the same order. */
  function SetTwice(s: State, addr: int): State {
    var s1 := AfterSet(s, addr, AllOk).0;
    var s2 := AfterSet(s1, addr, AllOk).0;
    AfterRemove(AfterRemove(s2, s1.counter, AllOk).0, s2.counter, AllOk).0
  }

  lemma SetLeaves(s: State, addr: int)
    requires addr in s.mem
    ensures var s1 := AfterSet(s, addr, AllOk).0;
            && s1.mem == s.mem[addr := INT3] && s1.table == s.table[s.counter + 1 := Int3(addr, s.mem[addr])]
            && s1.counter == s.counter + 1 && s1.pending == s.pending
  {
  }

  lemma RemoveLeaves(s: State, id: nat)
    requires Live(s, id) && s.table[id].addr in s.mem
    ensures var s1 := AfterRemove(s, id, AllOk).0;
            && s1.mem == s.mem[s.table[id].addr := s.table[id].original] && s1.table == s.table - {id}
            && s1.counter == s.counter && s1.pending == s.pending
  {
  }

  lemma SetTwiceLeaves(s: State, addr: int)
    requires s.counter + 1 !in s.table && s.counter + 2 !in s.table && addr in s.mem
    ensures SetTwice(s, addr).table == s.table && SetTwice(s, addr).pending == s.pending
    ensures SetTwice(s, addr).mem == s.mem[addr := INT3] && SetTwice(s, addr).counter == s.counter + 2
  {
    hide AfterSet, AfterRemove;
    SetLeaves(s, addr);
    var s1 := AfterSet(s, addr, AllOk).0;
    SetLeaves(s1, addr);
    var s2 := AfterSet(s1, addr, AllOk).0;
    RemoveLeaves(s2, s1.counter);
    var s3 := AfterRemove(s2, s1.counter, AllOk).0;
    RemoveLeaves(s3, s2.counter);
    assert s2.table - {s1.counter} - {s2.counter} == s.table;
  }

  /** A second breakpoint at a trapped address saves 0xCC as the original byte: removing
      the two in the order they were set leaves 0xCC in the target for good. */
  lemma DuplicateAddressBreaks(s: State, pristine: Memory, addr: int)
    requires Inv(s, pristine) && Free(s, addr) && addr in pristine
    ensures var t := SetTwice(s, addr);
            && Free(t, addr) && t.mem[addr] == INT3
            && (Inv(t, pristine) <==> pristine[addr] == INT3)
  {
    hide SetTwice;
    var t := SetTwice(s, addr);
    SetTwiceLeaves(s, addr);
    assert Free(t, addr) by { forall i | i in t.table ensures !LiveAt(t, i, addr) { assert !LiveAt(s, i, addr); } }
    if pristine[addr] == INT3 {
      assert t.mem == s.mem;
      forall i: nat | Live(t, i) ensures ByteOk(t, pristine, i) {
        assert ByteOk(s, pristine, i);
        if Stepping(s, i) { var u :| u in s.pending && s.pending[u].id == i; assert u in t.pending; }
      }
      forall a | a in t.mem && Free(t, a) ensures t.mem[a] == pristine[a] {
        assert Free(s, a) by { forall i | i in s.table ensures !LiveAt(s, i, a) { assert !LiveAt(t, i, a); } }
      }
    }
  }
}
