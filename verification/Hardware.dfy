/** Hardware breakpoints: debug registers of every thread, and the records behind them. */
module Hardware {
  import opened Wrappers

  datatype Slot = Empty | Armed(addr: int, condition: string, length: nat)

  /** The live threads of the target and their four breakpoint registers. */
  type Registers = map<int, seq<Slot>>

  datatype Record = Software | Hw(addr: int, slot: nat, scope: Option<int>, condition: string, length: nat)

  datatype State = State(regs: Registers, records: map<nat, Record>, counter: nat)

  /** Which of the calls on a thread fails, if any; none can be opened that is gone. */
  datatype Fault = Fine | OpenFails | WriteFails | CloseFails

  type Faults = int -> Fault

  datatype Result<+T> = Ok(value: T) | Raised

  const CONDITIONS: set<string> := {"x", "w", "rw"}
  const LENGTHS: set<nat> := {1, 2, 4, 8}

  function FaultOf(regs: Registers, faults: Faults, tid: int): Fault {
    if tid in regs then faults(tid) else OpenFails
  }

  function SlotSet(slots: seq<Slot>, slot: nat, v: Slot): (r: seq<Slot>)
    ensures |r| == |slots|
    ensures forall k :: 0 <= k < |slots| ==> r[k] == if k == slot then v else slots[k]
  {
    if slot < |slots| then slots[slot := v] else slots
  }

  /** The registers with one slot of some threads set. */
  function WithSlot(regs: Registers, ts: set<int>, slot: nat, v: Slot): Registers {
    map t | t in regs :: if t in ts then SlotSet(regs[t], slot, v) else regs[t]
  }

  function Members(tids: seq<int>): set<int> { set t | t in tids }

  /** How many threads are armed before the first one that fails. */
  function ArmedCount(regs: Registers, tids: seq<int>, faults: Faults, from: nat): (n: nat)
    requires from <= |tids|
    ensures from <= n <= |tids| && forall i :: from <= i < n ==> FaultOf(regs, faults, tids[i]) == Fine
    ensures n < |tids| ==> FaultOf(regs, faults, tids[n]) != Fine
    decreases |tids| - from
  {
    if from == |tids| || FaultOf(regs, faults, tids[from]) != Fine then from
    else ArmedCount(regs, tids, faults, from + 1)
  }

  /** The threads that undoing reaches. */
  function Undone(regs: Registers, tids: seq<int>, undo: Faults): set<int> {
    set t | t in tids && FaultOf(regs, undo, t) !in {OpenFails, WriteFails}
  }

  /** Arm a slot on some threads. On a failure the threads armed before are disarmed again;
      the failing thread itself is not, even if only closing its handle failed. */
  function AfterArm(regs: Registers, tids: seq<int>, slot: nat, v: Slot, faults: Faults, undo: Faults)
    : (Registers, bool)
  {
    var n := ArmedCount(regs, tids, faults, 0);
    if n == |tids| then (WithSlot(regs, Members(tids), slot, v), true)
    else
      var touched := Members(tids[..n]) + if FaultOf(regs, faults, tids[n]) == CloseFails then {tids[n]} else {};
      (WithSlot(WithSlot(regs, touched, slot, v), Undone(regs, tids[..n], undo), slot, Empty), false)
  }

  predicate ValidRequest(condition: string, length: nat, slot: int, arch: nat) {
    && condition in CONDITIONS && length in LENGTHS && (condition == "x" ==> length == 1)
    && !(arch == 32 && length == 8) && 0 <= slot <= 3
  }

  predicate InUse(records: map<nat, Record>, slot: int) {
    exists id :: id in records && records[id].Hw? && records[id].slot == slot
  }

  /** `tids` is the enumeration of the target's threads, if that succeeds. */
  function AfterSet(s: State, addr: int, condition: string, length: nat, slot: int, scope: Option<int>, arch: nat,
                    tids: Option<seq<int>>, faults: Faults, undo: Faults): (State, Result<nat>) {
    if !ValidRequest(condition, length, slot, arch) || InUse(s.records, slot) then (s, Raised)
    else if tids.None? || (scope.Some? && scope.value !in tids.value) then (s, Raised)
    else
      var on := if scope.Some? then [scope.value] else tids.value;
      var (regs, ok) := AfterArm(s.regs, on, slot, Armed(addr, condition, length), faults, undo);
      if !ok then (s.(regs := regs), Raised)
      else
        var id := s.counter + 1;
        (State(regs, s.records[id := Hw(addr, slot, scope, condition, length)], id), Ok(id))
  }

  /** How many threads are passed before one refuses to be disarmed; those gone are passed over. */
  function DisarmedCount(regs: Registers, tids: seq<int>, faults: Faults, from: nat): (n: nat)
    requires from <= |tids|
    ensures from <= n <= |tids| && forall i :: from <= i < n ==> FaultOf(regs, faults, tids[i]) != WriteFails
    ensures n < |tids| ==> FaultOf(regs, faults, tids[n]) == WriteFails
    decreases |tids| - from
  {
    if from == |tids| || FaultOf(regs, faults, tids[from]) == WriteFails then from
    else DisarmedCount(regs, tids, faults, from + 1)
  }

  function AfterDisarm(regs: Registers, tids: seq<int>, slot: nat, faults: Faults): (Registers, bool) {
    var n := DisarmedCount(regs, tids, faults, 0);
    (WithSlot(regs, Undone(regs, tids[..n], faults), slot, Empty), n == |tids|)
  }

  function AfterRemove(s: State, id: nat, tids: Option<seq<int>>, faults: Faults): (State, Result<()>) {
    if id !in s.records || !s.records[id].Hw? then (s, Raised)
    else
      var r := s.records[id];
      if r.scope.None? && tids.None? then (s, Raised)
      else
        var (regs, ok) := AfterDisarm(s.regs, if r.scope.Some? then [r.scope.value] else tids.value, r.slot, faults);
        if ok then (s.(regs := regs, records := s.records - {id}), Ok(())) else (s.(regs := regs), Raised)
  }

  /** Disarm a slot everywhere, and keep its record. */
  function AfterClear(s: State, slot: nat, tids: Option<seq<int>>, faults: Faults): (State, Result<()>) {
    if tids.None? then (s, Raised)
    else
      var (regs, ok) := AfterDisarm(s.regs, tids.value, slot, faults);
      (s.(regs := regs), if ok then Ok(()) else Raised)
  }

  /** A new thread starts with empty registers and is given the process-wide breakpoints, in
      the order of their identifiers, until one cannot be written. */
  function Replicated(slots: seq<Slot>, records: map<nat, Record>, counter: nat, from: nat,
                      faults: nat -> Fault): (seq<Slot>, bool)
    decreases counter + 1 - from
  {
    if from > counter then (slots, true)
    else if from in records && records[from].Hw? && records[from].scope.None? && records[from].slot < |slots| then
      if faults(from) == WriteFails then (slots, false)
      else
        var r := records[from];
        Replicated(if faults(from) == OpenFails then slots else slots[r.slot := Armed(r.addr, r.condition, r.length)],
                   records, counter, from + 1, faults)
    else Replicated(slots, records, counter, from + 1, faults)
  }

  const FRESH: seq<Slot> := [Empty, Empty, Empty, Empty]

  function AfterCreate(s: State, tid: int, faults: nat -> Fault): (State, Result<()>) {
    var (slots, ok) := Replicated(FRESH, s.records, s.counter, 0, faults);
    (s.(regs := s.regs[tid := slots]), if ok then Ok(()) else Raised)
  }

  function AfterExit(s: State, tid: int): State { s.(regs := s.regs - {tid}) }

  // ----- the invariant -----

  /** The record that governs a slot of a thread. */
  ghost predicate Governs(s: State, id: nat, tid: int, slot: nat) {
    && id in s.records && s.records[id].Hw? && s.records[id].slot == slot
    && (s.records[id].scope.None? || s.records[id].scope == Some(tid))
  }

  /** Slots are used once; every live thread's slot holds what its record says, or nothing. */
  ghost predicate Agree(s: State) {
    && (forall id :: id in s.records ==> id <= s.counter && (s.records[id].Hw? ==> s.records[id].slot <= 3))
    && (forall i, j :: i in s.records && j in s.records && s.records[i].Hw? && s.records[j].Hw? && i != j ==>
          s.records[i].slot != s.records[j].slot)
    && forall t :: t in s.regs ==> |s.regs[t]| == 4 && forall k: nat :: k < 4 ==> SlotAgrees(s, t, k)
  }

  ghost predicate SlotAgrees(s: State, t: int, k: nat)
    requires t in s.regs && k < |s.regs[t]|
  {
    && (forall id :: Governs(s, id, t, k) ==>
          s.regs[t][k] == Armed(s.records[id].addr, s.records[id].condition, s.records[id].length))
    && ((forall id :: !Governs(s, id, t, k)) ==> s.regs[t][k] == Empty)
  }

  /** The enumeration lists every live thread once. */
  ghost predicate Lists(s: State, tids: seq<int>) {
    && (forall t :: t in s.regs ==> t in tids)
    && forall i, j :: 0 <= i < j < |tids| ==> tids[i] != tids[j]
  }

  /** A free slot is empty on every thread. */
  lemma FreeSlotIsEmpty(s: State, slot: nat, t: int)
    requires Agree(s) && !InUse(s.records, slot) && slot < 4 && t in s.regs
    ensures s.regs[t][slot] == Empty
  {
    assert forall id :: !Governs(s, id, t, slot);
    assert SlotAgrees(s, t, slot);
  }

  /** A set that succeeds keeps the agreement and adds its record. */
  lemma SetKeeps(s: State, addr: int, condition: string, length: nat, slot: int, scope: Option<int>, arch: nat,
                 tids: Option<seq<int>>, faults: Faults, undo: Faults)
    requires Agree(s) && (tids.Some? ==> Lists(s, tids.value))
    requires AfterSet(s, addr, condition, length, slot, scope, arch, tids, faults, undo).1.Ok?
    ensures var (s1, r) := AfterSet(s, addr, condition, length, slot, scope, arch, tids, faults, undo);
            && Agree(s1) && r.value !in s.records
            && s1.records == s.records[r.value := Hw(addr, slot, scope, condition, length)]
  {
    var (s1, r) := AfterSet(s, addr, condition, length, slot, scope, arch, tids, faults, undo);
    var id := r.value;
    assert s1.regs == WithSlot(s.regs, Members(if scope.Some? then [scope.value] else tids.value), slot,
                               Armed(addr, condition, length));
    hide AfterSet;
    forall t, k: nat | t in s1.regs && k < 4 ensures |s1.regs[t]| == 4 && SlotAgrees(s1, t, k) {
      assert SlotAgrees(s, t, k);
      forall i: nat ensures Governs(s1, i, t, k) <==>
                       Governs(s, i, t, k) || (i == id && k == slot && (scope.None? || scope == Some(t))) { }
      if k == slot {
        FreeSlotIsEmpty(s, slot, t);
        assert forall i :: !Governs(s, i, t, slot);
        if scope.None? || scope == Some(t) { assert Governs(s1, id, t, k); }
      }
    }
  }

  /** A set that fails leaves the records alone, and the registers as they were exactly when
      what failed was not the closing of a handle behind an armed thread, and every thread
      armed before could be disarmed. */
  lemma FailedSetExactly(s: State, addr: int, condition: string, length: nat, slot: int, scope: Option<int>, arch: nat,
                         tids: Option<seq<int>>, faults: Faults, undo: Faults)
    requires Agree(s) && (tids.Some? ==> Lists(s, tids.value))
    requires AfterSet(s, addr, condition, length, slot, scope, arch, tids, faults, undo).1.Raised?
    ensures var s1 := AfterSet(s, addr, condition, length, slot, scope, arch, tids, faults, undo).0;
            && s1.records == s.records && s1.counter == s.counter
            && (s1 == s <==> RolledBack(s, condition, length, slot, scope, arch, tids, faults, undo))
            && (Agree(s1) <==> s1 == s)
  {
    if ValidRequest(condition, length, slot, arch) && !InUse(s.records, slot) && tids.Some?
       && (scope.Some? ==> scope.value in tids.value) {
      var on := if scope.Some? then [scope.value] else tids.value;
      forall t | t in s.regs ensures slot < |s.regs[t]| && s.regs[t][slot] == Empty { FreeSlotIsEmpty(s, slot, t); }
      hide Agree, AfterArm, InUse, ValidRequest;
      ArmRollback(s.regs, on, slot, Armed(addr, condition, length), faults, undo);
      ArmTouches(s.regs, on, slot, Armed(addr, condition, length), faults, undo);
      FreeSlotChanged(s, AfterSet(s, addr, condition, length, slot, scope, arch, tids, faults, undo).0, slot);
    }
  }

  /** What the debug registers can watch: execution of one byte, or data of 1, 2 or 4 bytes, and
      of 8 on a 64-bit target, in one of the registers 0 to 3. */
  predicate Watchable(condition: string, length: nat, slot: int, arch: nat) {
    && 0 <= slot < 4
    && ((condition == "x" && length == 1)
        || ((condition == "w" || condition == "rw")
            && (length == 1 || length == 2 || length == 4 || (length == 8 && arch != 32))))
  }

  /** A set succeeds exactly when the debug registers can watch what is asked, no record has the
      register, the threads can be listed with the one asked for among them, and every
      thread it is for is alive and takes it. */
  lemma SetSucceedsExactly(s: State, addr: int, condition: string, length: nat, slot: int, scope: Option<int>,
                           arch: nat, tids: Option<seq<int>>, faults: Faults, undo: Faults)
    ensures AfterSet(s, addr, condition, length, slot, scope, arch, tids, faults, undo).1.Ok? <==>
            && Watchable(condition, length, slot, arch)
            && (forall id :: id in s.records && s.records[id].Hw? ==> s.records[id].slot != slot)
            && tids.Some? && (scope.Some? ==> scope.value in tids.value)
            && forall t :: t in (if scope.Some? then [scope.value] else tids.value) ==> t in s.regs && faults(t) == Fine
  {
    hide WithSlot, Undone, Members;
    if tids.Some? {
      var on := if scope.Some? then [scope.value] else tids.value;
      var n := ArmedCount(s.regs, on, faults, 0);
      if n < |on| { assert on[n] in on; }
    }
  }

  /** A remove succeeds exactly when there is such a record, the threads of a process-wide one can
      be listed, and no live thread of its scope that can be opened refuses. */
  lemma RemoveSucceedsExactly(s: State, id: nat, tids: Option<seq<int>>, faults: Faults)
    ensures AfterRemove(s, id, tids, faults).1.Ok? <==>
            && id in s.records && s.records[id].Hw? && (s.records[id].scope.None? ==> tids.Some?)
            && (forall t :: t in RemoveScope(s.records[id], tids) && t in s.regs ==> faults(t) != WriteFails)
    ensures AfterRemove(s, id, tids, faults).1.Ok? ==>
              AfterRemove(s, id, tids, faults).0.records == s.records - {id}
  {
    hide WithSlot, Undone;
    if id in s.records && s.records[id].Hw? && (s.records[id].scope.None? ==> tids.Some?) {
      AllDisarmed(s.regs, RemoveScope(s.records[id], tids), faults);
    }
  }

  /** Clearing a slot succeeds exactly when the threads can be listed and none of them refuses. */
  lemma ClearSucceedsExactly(s: State, slot: nat, tids: Option<seq<int>>, faults: Faults)
    ensures AfterClear(s, slot, tids, faults).1.Ok? <==>
            tids.Some? && forall t :: t in tids.value && t in s.regs ==> faults(t) != WriteFails
  {
    hide WithSlot, Undone;
    if tids.Some? { AllDisarmed(s.regs, tids.value, faults); }
  }

  lemma AllDisarmed(regs: Registers, on: seq<int>, faults: Faults)
    ensures DisarmedCount(regs, on, faults, 0) == |on| <==>
            forall t :: t in on && t in regs ==> faults(t) != WriteFails
  {
    var n := DisarmedCount(regs, on, faults, 0);
    if n < |on| { assert on[n] in on; }
    forall i | 0 <= i < n ensures FaultOf(regs, faults, on[i]) != WriteFails { }
  }

  /** Arming changes nothing but its slot. */
  ghost predicate OnlySlot(regs: Registers, regs1: Registers, slot: nat) {
    && regs1.Keys == regs.Keys
    && forall t :: t in regs ==>
         |regs1[t]| == |regs[t]| && forall k :: 0 <= k < |regs[t]| && k != slot ==> regs1[t][k] == regs[t][k]
  }

  lemma ArmTouches(regs: Registers, on: seq<int>, slot: nat, v: Slot, faults: Faults, undo: Faults)
    ensures OnlySlot(regs, AfterArm(regs, on, slot, v, faults, undo).0, slot)
  {
    hide ArmedCount, Undone, Members;
  }

  /** A slot without a record that is not empty everywhere breaks the agreement. */
  lemma FreeSlotChanged(s: State, s1: State, slot: nat)
    requires Agree(s) && !InUse(s.records, slot) && slot < 4
    requires s1.records == s.records && s1.counter == s.counter && OnlySlot(s.regs, s1.regs, slot)
    ensures Agree(s1) <==> s1 == s
  {
    if Agree(s1) {
      forall t | t in s.regs ensures s1.regs[t] == s.regs[t] {
        FreeSlotIsEmpty(s, slot, t);
        FreeSlotIsEmpty(s1, slot, t);
      }
      assert s1.regs == s.regs;
    }
  }

  ghost predicate RolledBack(s: State, condition: string, length: nat, slot: int, scope: Option<int>, arch: nat,
                             tids: Option<seq<int>>, faults: Faults, undo: Faults) {
    ValidRequest(condition, length, slot, arch) && !InUse(s.records, slot) && tids.Some?
    && (scope.Some? ==> scope.value in tids.value) ==>
      var on := if scope.Some? then [scope.value] else tids.value;
      ArmedCount(s.regs, on, faults, 0) < |on| ==> UndoesAll(s.regs, on, faults, undo)
  }

  /** A set that succeeds armed everything, so there is nothing to roll back. */
  lemma SetArmedAll(s: State, addr: int, condition: string, length: nat, slot: int, scope: Option<int>, arch: nat,
                    tids: Option<seq<int>>, faults: Faults, undo: Faults)
    requires AfterSet(s, addr, condition, length, slot, scope, arch, tids, faults, undo).1.Ok?
    ensures RolledBack(s, condition, length, slot, scope, arch, tids, faults, undo)
  {
    hide WithSlot, Undone, Members, InUse, ValidRequest;
  }

  /** A set on one thread whose handle cannot be closed raises, and leaves the slot armed
      without a record. */
  lemma FailedSetLeavesArmed()
    ensures var s := State(map[1 := FRESH], map[], 0);
            var (s1, r) := AfterSet(s, 0x1000, "x", 1, 0, None, 64, Some([1]), _ => CloseFails, _ => Fine);
            r.Raised? && s1.records == map[] && s1.regs[1][0] == Armed(0x1000, "x", 1)
  {
    var s := State(map[1 := FRESH], map[], 0);
    var faults, undo: Faults := _ => CloseFails, _ => Fine;
    assert ArmedCount(s.regs, [1], faults, 0) == 0;
    assert [1][..0] == [] && Undone(s.regs, [], undo) == {};
    assert Members([]) + {1} == {1};
  }

  ghost predicate UndoesAll(regs: Registers, on: seq<int>, faults: Faults, undo: Faults) {
    var n := ArmedCount(regs, on, faults, 0);
    && (n < |on| ==> FaultOf(regs, faults, on[n]) != CloseFails)
    && forall i :: 0 <= i < n ==> undo(on[i]) !in {OpenFails, WriteFails}
  }

  lemma ArmRollback(regs: Registers, on: seq<int>, slot: nat, v: Slot, faults: Faults, undo: Faults)
    requires forall t :: t in regs ==> slot < |regs[t]| && regs[t][slot] == Empty
    requires v != Empty && forall i, j :: 0 <= i < j < |on| ==> on[i] != on[j]
    requires !AfterArm(regs, on, slot, v, faults, undo).1
    ensures AfterArm(regs, on, slot, v, faults, undo).0 == regs <==> UndoesAll(regs, on, faults, undo)
  {
    var n := ArmedCount(regs, on, faults, 0);
    var touched := Members(on[..n]) + if FaultOf(regs, faults, on[n]) == CloseFails then {on[n]} else {};
    var undone := Undone(regs, on[..n], undo);
    var after := AfterArm(regs, on, slot, v, faults, undo).0;
    forall t | t in regs ensures after[t] == regs[t] <==> (t in touched ==> t in undone) {
      ArmThenUndo(regs[t], slot, v);
    }
    hide AfterArm, WithSlot, ArmedCount;
    if UndoesAll(regs, on, faults, undo) {
      forall t | t in regs ensures after[t] == regs[t] { }
      assert after == regs;
    }
    if after == regs {
      assert on[n] !in on[..n] && on[n] !in undone;
      forall i | 0 <= i < n ensures undo(on[i]) !in {OpenFails, WriteFails} {
        assert on[i] in on[..n] && on[i] in regs;
      }
    }
  }

  lemma ArmThenUndo(slots: seq<Slot>, slot: nat, v: Slot)
    requires slot < |slots| && slots[slot] == Empty && v != Empty
    ensures SlotSet(SlotSet(slots, slot, v), slot, Empty) == slots == SlotSet(slots, slot, Empty)
    ensures SlotSet(slots, slot, v) != slots
  {
  }

  /** The threads a remove goes to. */
  function RemoveScope(r: Record, tids: Option<seq<int>>): seq<int>
    requires r.Hw? && (r.scope.Some? || tids.Some?)
  {
    if r.scope.Some? then [r.scope.value] else tids.value
  }

  predicate CanRemove(s: State, id: nat, tids: Option<seq<int>>) {
    id in s.records && s.records[id].Hw? && (s.records[id].scope.Some? || tids.Some?)
  }

  /** A remove that succeeds drops its record, and keeps the agreement exactly when every live
      thread the breakpoint governed could be opened: a thread that could not is taken to be
      gone, and stays armed. */
  lemma RemoveKeepsExactly(s: State, id: nat, tids: Option<seq<int>>, faults: Faults)
    requires Agree(s) && (tids.Some? ==> Lists(s, tids.value))
    requires AfterRemove(s, id, tids, faults).1.Ok?
    ensures var s1 := AfterRemove(s, id, tids, faults).0;
            && s1.records == s.records - {id}
            && (Agree(s1) <==> GovernedOpen(s, id, faults))
  {
    var r := s.records[id];
    var s1 := AfterRemove(s, id, tids, faults).0;
    var on := RemoveScope(r, tids);
    assert on[..|on|] == on;
    forall t, k: nat, i: nat ensures Governs(s1, i, t, k) <==> Governs(s, i, t, k) && i != id { }
    forall t | t in s.regs && Governs(s, id, t, r.slot) ensures t in on { }
    if GovernedOpen(s, id, faults) {
      hide RemoveScope, AfterRemove, Governs;
      forall t, k: nat | t in s1.regs && k < 4 ensures |s1.regs[t]| == 4 && SlotAgrees(s1, t, k) {
        assert SlotAgrees(s, t, k);
        if k == r.slot && t in on { assert t in Undone(s.regs, on, faults) || !Governs(s, id, t, k); }
      }
    } else {
      var t :| t in s.regs && Governs(s, id, t, r.slot) && faults(t) == OpenFails;
      assert t !in Undone(s.regs, on, faults);
      assert SlotAgrees(s, t, r.slot);
      assert forall i :: !Governs(s1, i, t, r.slot);
      assert !SlotAgrees(s1, t, r.slot);
    }
  }

  ghost predicate GovernedOpen(s: State, id: nat, faults: Faults)
    requires id in s.records && s.records[id].Hw?
  {
    forall t :: t in s.regs && Governs(s, id, t, s.records[id].slot) ==> faults(t) != OpenFails
  }

  /** Before the first thread that refuses, none was disarmed: none could be opened. */
  ghost predicate NoneDisarmed(regs: Registers, on: seq<int>, faults: Faults) {
    Undone(regs, on[..DisarmedCount(regs, on, faults, 0)], faults) == {}
  }

  /** A remove that fails keeps its record, so the agreement holds exactly when the remove did
      not get as far as a thread, or had disarmed none before the one that refused. */
  lemma FailedRemoveExactly(s: State, id: nat, tids: Option<seq<int>>, faults: Faults)
    requires Agree(s) && (tids.Some? ==> Lists(s, tids.value))
    requires AfterRemove(s, id, tids, faults).1.Raised?
    ensures var s1 := AfterRemove(s, id, tids, faults).0;
            && s1.records == s.records
            && (Agree(s1) <==>
                  (CanRemove(s, id, tids) ==> NoneDisarmed(s.regs, RemoveScope(s.records[id], tids), faults)))
  {
    var s1 := AfterRemove(s, id, tids, faults).0;
    if CanRemove(s, id, tids) {
      var r := s.records[id];
      var on := RemoveScope(r, tids);
      var n := DisarmedCount(s.regs, on, faults, 0);
      assert on[n] !in Undone(s.regs, on[..n], faults);
      if NoneDisarmed(s.regs, on, faults) {
        NothingWritten(s.regs, r.slot, Empty);
        assert s1 == s;
      } else {
        var t :| t in Undone(s.regs, on[..n], faults);
        assert t in s.regs && Governs(s, id, t, r.slot) && Governs(s1, id, t, r.slot);
        assert s1.regs[t][r.slot] == Empty;
        assert !SlotAgrees(s1, t, r.slot);
      }
    }
  }

  /** Clearing a slot keeps its record, so the agreement survives exactly when no thread that
      was disarmed, up to the first that refuses, had a breakpoint in the slot. */
  lemma ClearKeepsExactly(s: State, slot: nat, tids: Option<seq<int>>, faults: Faults)
    requires Agree(s)
    ensures var s1 := AfterClear(s, slot, tids, faults).0;
            && s1.records == s.records
            && (Agree(s1) <==> (tids.Some? ==> NoneCleared(s, slot, tids.value, faults)))
  {
    var s1 := AfterClear(s, slot, tids, faults).0;
    if tids.Some? {
      var gone := Undone(s.regs, tids.value[..DisarmedCount(s.regs, tids.value, faults, 0)], faults);
      assert s1.regs == WithSlot(s.regs, gone, slot, Empty);
      hide AfterClear, Undone;
      forall t, k: nat, i: nat ensures Governs(s1, i, t, k) <==> Governs(s, i, t, k) { }
      if NoneCleared(s, slot, tids.value, faults) {
        forall t, k: nat | t in s1.regs && k < 4 ensures |s1.regs[t]| == 4 && SlotAgrees(s1, t, k) {
          assert SlotAgrees(s, t, k);
        }
      } else {
        var id: nat, t :| t in gone && t in s.regs && Governs(s, id, t, slot);
        assert Governs(s1, id, t, slot) && s1.regs[t][slot] == Empty;
        assert !SlotAgrees(s1, t, slot);
      }
    }
  }

  ghost predicate NoneCleared(s: State, slot: nat, tids: seq<int>, faults: Faults) {
    forall id: nat, t ::
      t in Undone(s.regs, tids[..DisarmedCount(s.regs, tids, faults, 0)], faults) && t in s.regs ==>
        !Governs(s, id, t, slot)
  }

  // ----- new threads -----

  /** A breakpoint that new threads are given. */
  predicate ForEveryone(records: map<nat, Record>, id: nat) {
    id in records && records[id].Hw? && records[id].scope.None?
  }

  ghost predicate OneSlotEach(records: map<nat, Record>) {
    && (forall id :: id in records && records[id].Hw? ==> records[id].slot <= 3)
    && forall i, j :: i in records && j in records && records[i].Hw? && records[j].Hw? && i != j ==>
         records[i].slot != records[j].slot
  }

  /** What replication leaves in one slot: the breakpoint meant for it, if the thread could be
      opened and written for it and for those before it, or what was there. */
  lemma {:induction false} ReplicatedSlot(slots: seq<Slot>, records: map<nat, Record>, counter: nat, from: nat,
                                          faults: nat -> Fault, k: nat)
    requires |slots| == 4 && k < 4 && OneSlotEach(records)
    ensures var (after, ok) := Replicated(slots, records, counter, from, faults);
      && |after| == 4
      && (ok <==> forall id: nat :: ForEveryone(records, id) && from <= id <= counter ==> faults(id) != WriteFails)
      && (forall id: nat :: ForEveryone(records, id) && from <= id <= counter && records[id].slot == k ==>
            if faults(id) in {OpenFails, WriteFails} then after[k] == slots[k]
            else ok ==> after[k] == Armed(records[id].addr, records[id].condition, records[id].length))
      && ((forall id: nat :: ForEveryone(records, id) && from <= id <= counter ==> records[id].slot != k) ==>
            after[k] == slots[k])
    decreases counter + 1 - from
  {
    if from <= counter {
      if ForEveryone(records, from) && faults(from) != WriteFails {
        var r := records[from];
        var next := if faults(from) == OpenFails then slots else slots[r.slot := Armed(r.addr, r.condition, r.length)];
        ReplicatedSlot(next, records, counter, from + 1, faults, k);
      } else if !ForEveryone(records, from) {
        ReplicatedSlot(slots, records, counter, from + 1, faults, k);
      }
    }
  }

  /** A new thread joins the agreement exactly when no breakpoint is meant for a thread that
      had its identifier before, and for each process-wide one the thread could be opened and
      written. Only a failed write is reported; a failed open is passed over in silence. */
  lemma CreateKeepsExactly(s: State, tid: int, faults: nat -> Fault)
    requires Agree(s) && tid !in s.regs
    ensures Agree(AfterCreate(s, tid, faults).0) <==> NoneScoped(s, tid) && AllReach(s, faults)
    ensures AfterCreate(s, tid, faults).1.Ok?
            <==> forall id: nat :: ForEveryone(s.records, id) ==> faults(id) != WriteFails
  {
    var s1 := AfterCreate(s, tid, faults).0;
    ReplicatedSlot(FRESH, s.records, s.counter, 0, faults, 0);
    hide Replicated;
    if !NoneScoped(s, tid) {
      var id :| id in s.records && s.records[id].Hw? && s.records[id].scope == Some(tid);
      NotReached(s, tid, faults, id);
    } else if !AllReach(s, faults) {
      var id: nat :| ForEveryone(s.records, id) && faults(id) in {OpenFails, WriteFails};
      NotReached(s, tid, faults, id);
    } else {
      NewThreadAgrees(s, tid, faults);
    }
  }

  /** A thread that cannot be opened for the one process-wide breakpoint: nothing is reported,
      and the thread runs without it. */
  lemma SilentlyUnarmed()
    ensures var s := State(map[], map[1 := Hw(0x1000, 0, None, "x", 1)], 1);
            Agree(s) && AfterCreate(s, 7, _ => OpenFails).1.Ok? && !Agree(AfterCreate(s, 7, _ => OpenFails).0)
  {
    var s := State(map[], map[1 := Hw(0x1000, 0, None, "x", 1)], 1);
    var faults: nat -> Fault := _ => OpenFails;
    assert ForEveryone(s.records, 1);
    CreateKeepsExactly(s, 7, faults);
  }

  ghost predicate NoneScoped(s: State, tid: int) {
    forall id :: id in s.records && s.records[id].Hw? ==> s.records[id].scope != Some(tid)
  }

  ghost predicate AllReach(s: State, faults: nat -> Fault) {
    forall id: nat :: ForEveryone(s.records, id) ==> faults(id) !in {OpenFails, WriteFails}
  }

  lemma NotReached(s: State, tid: int, faults: nat -> Fault, id: nat)
    requires Agree(s) && tid !in s.regs && id in s.records && s.records[id].Hw?
    requires s.records[id].scope == Some(tid) || (s.records[id].scope.None? && faults(id) in {OpenFails, WriteFails})
    ensures !Agree(AfterCreate(s, tid, faults).0)
  {
    var s1 := AfterCreate(s, tid, faults).0;
    var k := s.records[id].slot;
    ReplicatedSlot(FRESH, s.records, s.counter, 0, faults, k);
    assert s1.regs[tid][k] == Empty && Governs(s1, id, tid, k);
    assert !SlotAgrees(s1, tid, k);
  }

  lemma NewThreadAgrees(s: State, tid: int, faults: nat -> Fault)
    requires Agree(s) && tid !in s.regs && NoneScoped(s, tid) && AllReach(s, faults)
    ensures Agree(AfterCreate(s, tid, faults).0)
  {
    var s1 := AfterCreate(s, tid, faults).0;
    ReplicatedSlot(FRESH, s.records, s.counter, 0, faults, 0);
    hide Replicated;
    forall t, k: nat | t in s1.regs && k < 4 ensures |s1.regs[t]| == 4 && SlotAgrees(s1, t, k) {
      if t == tid {
        ReplicatedSlot(FRESH, s.records, s.counter, 0, faults, k);
        NewThreadSlot(s1, tid, k);
      } else {
        assert SlotAgrees(s, t, k);
        SameSlot(s, s1, t, k);
      }
    }
  }

  lemma SameSlot(s: State, s1: State, t: int, k: nat)
    requires t in s.regs && t in s1.regs && s1.regs[t] == s.regs[t] && s1.records == s.records
    requires k < |s.regs[t]| && SlotAgrees(s, t, k)
    ensures SlotAgrees(s1, t, k)
  {
    assert forall i :: Governs(s1, i, t, k) <==> Governs(s, i, t, k);
  }

  lemma NewThreadSlot(s: State, tid: int, k: nat)
    requires tid in s.regs && |s.regs[tid]| == 4 && k < 4 && NoneScoped(s, tid)
    requires forall id :: id in s.records ==> id <= s.counter
    requires forall id: nat :: ForEveryone(s.records, id) && 0 <= id <= s.counter && s.records[id].slot == k ==>
               s.regs[tid][k] == Armed(s.records[id].addr, s.records[id].condition, s.records[id].length)
    requires (forall id: nat :: ForEveryone(s.records, id) && 0 <= id <= s.counter ==> s.records[id].slot != k) ==>
               s.regs[tid][k] == Empty
    ensures SlotAgrees(s, tid, k)
  {
    if forall id :: !Governs(s, id, tid, k) {
      forall id: nat | ForEveryone(s.records, id) && 0 <= id <= s.counter ensures s.records[id].slot != k {
        assert !Governs(s, id, tid, k);
      }
    }
  }

  lemma ExitKeeps(s: State, tid: int)
    requires Agree(s)
    ensures Agree(AfterExit(s, tid))
  {
    var s1 := AfterExit(s, tid);
    forall t, k: nat | t in s1.regs && k < 4 ensures SlotAgrees(s1, t, k) {
      assert SlotAgrees(s, t, k);
      assert forall i :: Governs(s1, i, t, k) <==> Governs(s, i, t, k);
    }
  }

  // ----- whole runs -----

  datatype Action = Set(addr: int, condition: string, length: nat, slot: int, scope: Option<int>, arch: nat,
                        tids: Option<seq<int>>, faults: Faults, undo: Faults)
                  | Remove(id: nat, among: Option<seq<int>>, disarm: Faults)
                  | Clear(cleared: nat, among: Option<seq<int>>, disarm: Faults)
                  | Create(tid: int, replicate: nat -> Fault)
                  | Exit(gone: int)

  function Apply(s: State, a: Action): State {
    match a
    case Set(addr, condition, length, slot, scope, arch, tids, faults, undo) =>
      AfterSet(s, addr, condition, length, slot, scope, arch, tids, faults, undo).0
    case Remove(id, tids, faults) => AfterRemove(s, id, tids, faults).0
    case Clear(slot, tids, faults) => AfterClear(s, slot, tids, faults).0
    case Create(tid, faults) => AfterCreate(s, tid, faults).0
    case Exit(tid) => AfterExit(s, tid)
  }

  /** What holds of every action, whatever fails in it: an enumeration that succeeds lists the
      live threads, and a new thread is new. */
  ghost predicate Possible(s: State, a: Action) {
    match a
    case Set(_, _, _, _, _, _, tids, _, _) => tids.Some? ==> Lists(s, tids.value)
    case Remove(_, tids, _) => tids.Some? ==> Lists(s, tids.value)
    case Clear(_, tids, _) => tids.Some? ==> Lists(s, tids.value)
    case Create(tid, _) => tid !in s.regs
    case Exit(_) => true
  }

  /** The failures that do no harm: of a set, if it could be rolled back; of a remove, if it
      disarmed nothing, while its success needs the threads it passed over to be gone; of
      replication, if it was not a thread that refused; and clearing a slot nobody uses. */
  ghost predicate Harmless(s: State, a: Action) {
    match a
    case Set(_, condition, length, slot, scope, arch, tids, faults, undo) =>
      RolledBack(s, condition, length, slot, scope, arch, tids, faults, undo)
    case Remove(id, tids, faults) =>
      CanRemove(s, id, tids) ==>
        var on := RemoveScope(s.records[id], tids);
        if DisarmedCount(s.regs, on, faults, 0) == |on| then GovernedOpen(s, id, faults)
        else NoneDisarmed(s.regs, on, faults)
    case Clear(slot, tids, faults) => tids.Some? ==> NoneCleared(s, slot, tids.value, faults)
    case Create(tid, faults) => NoneScoped(s, tid) && AllReach(s, faults)
    case Exit(_) => true
  }

  /** One action keeps the agreement exactly when its failures do no harm. */
  lemma StepKeepsExactly(s: State, a: Action)
    requires Agree(s) && Possible(s, a)
    ensures Agree(Apply(s, a)) <==> Harmless(s, a)
  {
    hide AfterSet, AfterCreate, AfterExit, RolledBack, Agree, NoneDisarmed, GovernedOpen, NoneCleared, AfterClear;
    match a
    case Set(addr, condition, length, slot, scope, arch, tids, faults, undo) =>
      if AfterSet(s, addr, condition, length, slot, scope, arch, tids, faults, undo).1.Ok? {
        SetKeeps(s, addr, condition, length, slot, scope, arch, tids, faults, undo);
        SetArmedAll(s, addr, condition, length, slot, scope, arch, tids, faults, undo);
      } else {
        FailedSetExactly(s, addr, condition, length, slot, scope, arch, tids, faults, undo);
      }
    case Remove(id, tids, faults) =>
      if AfterRemove(s, id, tids, faults).1.Ok? { RemoveKeepsExactly(s, id, tids, faults); }
      else { FailedRemoveExactly(s, id, tids, faults); }
    case Clear(slot, tids, faults) => ClearKeepsExactly(s, slot, tids, faults);
    case Create(tid, faults) => CreateKeepsExactly(s, tid, faults);
    case Exit(tid) => ExitKeeps(s, tid);
  }

  function Run(s: State, actions: seq<Action>): State
    decreases |actions|
  {
    if actions == [] then s else Apply(Run(s, actions[..|actions| - 1]), actions[|actions| - 1])
  }

  ghost predicate PossibleRun(s: State, actions: seq<Action>) {
    forall i :: 0 <= i < |actions| ==> Possible(Run(s, actions[..i]), actions[i])
  }

  ghost predicate HarmlessRun(s: State, actions: seq<Action>) {
    forall i :: 0 <= i < |actions| ==> Harmless(Run(s, actions[..i]), actions[i])
  }

  ghost predicate AgreesThroughout(s: State, actions: seq<Action>) {
    forall i :: 0 <= i <= |actions| ==> Agree(Run(s, actions[..i]))
  }

  /** On every run, whatever fails in it, the registers agree with the records all along
      exactly when every failure on the way did no harm. */
  lemma {:induction false} RunKeepsExactly(s: State, actions: seq<Action>)
    requires Agree(s) && PossibleRun(s, actions)
    ensures AgreesThroughout(s, actions) <==> HarmlessRun(s, actions)
    decreases |actions|
  {
    hide PossibleRun, HarmlessRun, AgreesThroughout, Agree, Possible, Harmless;
    if actions == [] {
      NothingHappens(s);
    } else {
      LastAction(s, actions);
      RunKeepsExactly(s, actions[..|actions| - 1]);
      if AgreesThroughout(s, actions[..|actions| - 1]) {
        EndAgrees(s, actions[..|actions| - 1]);
        StepKeepsExactly(Run(s, actions[..|actions| - 1]), actions[|actions| - 1]);
      }
    }
  }

  lemma NothingHappens(s: State)
    requires Agree(s)
    ensures AgreesThroughout(s, []) && HarmlessRun(s, [])
  {
    hide Agree;
  }

  lemma EndAgrees(s: State, actions: seq<Action>)
    requires AgreesThroughout(s, actions)
    ensures Agree(Run(s, actions))
  {
    hide Agree;
    assert actions[..|actions|] == actions;
  }

  /** A run is a shorter one and a last action. */
  lemma LastAction(s: State, actions: seq<Action>)
    requires actions != []
    ensures var n := |actions| - 1;
            var init := actions[..n];
            && (PossibleRun(s, actions) ==> PossibleRun(s, init) && Possible(Run(s, init), actions[n]))
            && (HarmlessRun(s, actions) <==> HarmlessRun(s, init) && Harmless(Run(s, init), actions[n]))
            && (AgreesThroughout(s, actions) <==> AgreesThroughout(s, init) && Agree(Run(s, actions)))
  {
    hide Agree, Possible, Harmless, Run;
    var n := |actions| - 1;
    var init := actions[..n];
    assert actions[..n + 1] == actions;
    forall i | 0 <= i <= n ensures init[..i] == actions[..i] { }
    forall i | 0 <= i < n ensures init[i] == actions[i] { }
    if HarmlessRun(s, actions) {
      forall i | 0 <= i < n ensures Harmless(Run(s, init[..i]), init[i]) {
        assert Harmless(Run(s, actions[..i]), actions[i]);
      }
    }
    if PossibleRun(s, actions) {
      forall i | 0 <= i < n ensures Possible(Run(s, init[..i]), init[i]) {
        assert Possible(Run(s, actions[..i]), actions[i]);
      }
    }
    if AgreesThroughout(s, actions) {
      forall i | 0 <= i <= n ensures Agree(Run(s, init[..i])) { assert Agree(Run(s, actions[..i])); }
    }
  }

  // ----- the manager -----

  class HardwareBreakpointManager {
    // the target
    var regs: Registers
    // the session
    var breakpoints: map<nat, Record>
    var bpCounter: nat
    const targetArch: nat

    ghost function Now(): State
      reads this
    {
      State(regs, breakpoints, bpCounter)
    }

    constructor (regs: Registers, arch: nat)
      ensures Now() == State(regs, map[], 0) && targetArch == arch
    {
      this.regs, breakpoints, bpCounter, targetArch := regs, map[], 0, arch;
    }

    method Set(addr: int, condition: string, length: nat, slot: int, scope: Option<int>,
               tids: Option<seq<int>>, faults: Faults, undo: Faults) returns (r: Result<nat>)
      modifies this
      ensures (Now(), r) == AfterSet(old(Now()), addr, condition, length, slot, scope, targetArch, tids, faults, undo)
    {
      if condition !in CONDITIONS { return Raised; }
      if length !in LENGTHS { return Raised; }
      if condition == "x" && length != 1 { return Raised; }
      if targetArch == 32 && length == 8 { return Raised; }
      if slot < 0 || slot > 3 { return Raised; }
      if InUse(breakpoints, slot) { return Raised; }
      if tids.None? { return Raised; }
      if scope.Some? && scope.value !in tids.value { return Raised; }
      var ok := ArmScope(if scope.Some? then [scope.value] else tids.value, slot, Armed(addr, condition, length),
                faults, undo);
      if !ok { return Raised; }
      bpCounter := bpCounter + 1;
      breakpoints := breakpoints[bpCounter := Hw(addr, slot, scope, condition, length)];
      r := Ok(bpCounter);
    }

    /** Arm a slot thread by thread, and undo it on a failure. */
    method ArmScope(tids: seq<int>, slot: nat, v: Slot, faults: Faults, undo: Faults) returns (ok: bool)
      modifies this`regs
      ensures (regs, ok) == AfterArm(old(regs), tids, slot, v, faults, undo)
    {
      hide WithSlot, Undone, Members, FaultOf;
      ghost var was := regs;
      NothingWritten(was, slot, v);
      assert tids[..0] == [];
      for k := 0 to |tids|
        invariant ArmedCount(was, tids, faults, 0) == ArmedCount(was, tids, faults, k)
        invariant regs == WithSlot(was, Members(tids[..k]), slot, v) && regs.Keys == was.Keys
      {
        SameThreads(was, Members(tids[..k]), slot, v, faults, tids[k]);
        OneMoreMember(tids, k);
        var fault := FaultOf(regs, faults, tids[k]);
        if fault in {Fine, CloseFails} {
          IsLive(regs, faults, tids[k]);
          Write(tids[k], slot, v);
          WriteOne(was, Members(tids[..k]), tids[k], slot, v);
        }
        if fault != Fine {
          NoMoreMembers(Members(tids[..k]));
          UndoneSame(was, regs, tids[..k], undo);
          Rollback(tids[..k], slot, undo);
          return false;
        }
      }
      assert tids[..|tids|] == tids;
      ok := true;
    }

    method Write(tid: int, slot: nat, v: Slot)
      requires tid in regs
      modifies this`regs
      ensures regs == WithSlot(old(regs), {tid}, slot, v) && regs.Keys == old(regs).Keys
    {
      regs := regs[tid := SlotSet(regs[tid], slot, v)];
    }

    method Rollback(armed: seq<int>, slot: nat, undo: Faults)
      modifies this`regs
      ensures regs == WithSlot(old(regs), Undone(old(regs), armed, undo), slot, Empty)
    {
      hide WithSlot, Undone, FaultOf;
      ghost var was := regs;
      NothingWritten(was, slot, Empty);
      UndoneNext(was, armed, undo, 0);
      for k := 0 to |armed|
        invariant regs == WithSlot(was, Undone(was, armed[..k], undo), slot, Empty)
      {
        SameThreads(was, Undone(was, armed[..k], undo), slot, Empty, undo, armed[k]);
        UndoneNext(was, armed, undo, k);
        var fault := FaultOf(regs, undo, armed[k]);
        if fault !in {OpenFails, WriteFails} {
          IsLive(regs, undo, armed[k]);
          Write(armed[k], slot, Empty);
          WriteOne(was, Undone(was, armed[..k], undo), armed[k], slot, Empty);
        }
      }
      assert armed[..|armed|] == armed;
    }

    /** Disarm thread by thread; threads that cannot be opened are taken to be gone. */
    method DisarmScope(tids: seq<int>, slot: nat, faults: Faults) returns (ok: bool)
      modifies this`regs
      ensures (regs, ok) == AfterDisarm(old(regs), tids, slot, faults)
    {
      hide WithSlot, Undone, FaultOf;
      ghost var was := regs;
      NothingWritten(was, slot, Empty);
      UndoneNext(was, tids, faults, 0);
      for k := 0 to |tids|
        invariant DisarmedCount(was, tids, faults, 0) == DisarmedCount(was, tids, faults, k)
        invariant regs == WithSlot(was, Undone(was, tids[..k], faults), slot, Empty)
      {
        SameThreads(was, Undone(was, tids[..k], faults), slot, Empty, faults, tids[k]);
        UndoneNext(was, tids, faults, k);
        var fault := FaultOf(regs, faults, tids[k]);
        if fault == WriteFails { return false; }
        if fault != OpenFails {
          IsLive(regs, faults, tids[k]);
          Write(tids[k], slot, Empty);
          WriteOne(was, Undone(was, tids[..k], faults), tids[k], slot, Empty);
        }
      }
      assert tids[..|tids|] == tids;
      ok := true;
    }

    method Remove(id: nat, tids: Option<seq<int>>, faults: Faults) returns (r: Result<()>)
      modifies this
      ensures (Now(), r) == AfterRemove(old(Now()), id, tids, faults)
    {
      if id !in breakpoints { return Raised; }
      if !breakpoints[id].Hw? { return Raised; }
      var slot, scope := breakpoints[id].slot, breakpoints[id].scope;
      if scope.None? && tids.None? { return Raised; }
      var ok := DisarmScope(if scope.Some? then [scope.value] else tids.value, slot, faults);
      if !ok { return Raised; }
      breakpoints := breakpoints - {id};
      r := Ok(());
    }

    method Clear(slot: nat, tids: Option<seq<int>>, faults: Faults) returns (r: Result<()>)
      modifies this`regs
      ensures (Now(), r) == AfterClear(old(Now()), slot, tids, faults)
    {
      if tids.None? { return Raised; }
      var ok := DisarmScope(tids.value, slot, faults);
      r := if ok then Ok(()) else Raised;
    }

    /** A thread of the target has been created. */
    method ThreadCreated(tid: int, faults: nat -> Fault) returns (r: Result<()>)
      modifies this`regs
      ensures (Now(), r) == AfterCreate(old(Now()), tid, faults)
    {
      var slots := FRESH;
      for id := 0 to bpCounter + 1
        invariant Replicated(slots, breakpoints, bpCounter, id, faults)
                  == Replicated(FRESH, breakpoints, bpCounter, 0, faults)
        invariant regs == old(regs)
      {
        if id in breakpoints && breakpoints[id].Hw? && breakpoints[id].scope.None? && breakpoints[id].slot < |slots| {
          var b := breakpoints[id];
          if faults(id) == WriteFails {
            regs := regs[tid := slots];
            return Raised;
          }
          if faults(id) != OpenFails { slots := slots[b.slot := Armed(b.addr, b.condition, b.length)]; }
        }
      }
      regs := regs[tid := slots];
      r := Ok(());
    }
  }

  lemma NothingWritten(regs: Registers, slot: nat, v: Slot)
    ensures WithSlot(regs, {}, slot, v) == regs && Members([]) == {}
  {
  }

  lemma IsLive(regs: Registers, faults: Faults, tid: int)
    ensures FaultOf(regs, faults, tid) != OpenFails ==> tid in regs
  {
  }

  lemma SameThreads(regs: Registers, ts: set<int>, slot: nat, v: Slot, faults: Faults, tid: int)
    ensures FaultOf(WithSlot(regs, ts, slot, v), faults, tid) == FaultOf(regs, faults, tid)
  {
  }

  lemma OneMoreMember(tids: seq<int>, k: nat)
    requires k < |tids|
    ensures Members(tids[..k + 1]) == Members(tids[..k]) + {tids[k]}
  {
  }

  lemma NoMoreMembers(ts: set<int>)
    ensures ts + {} == ts
  {
  }

  lemma UndoneSame(was: Registers, regs: Registers, tids: seq<int>, undo: Faults)
    requires regs.Keys == was.Keys
    ensures Undone(regs, tids, undo) == Undone(was, tids, undo)
  {
  }

  lemma UndoneNext(regs: Registers, tids: seq<int>, undo: Faults, k: nat)
    requires k <= |tids|
    ensures Undone(regs, tids[..0], undo) == {}
    ensures k < |tids| ==>
              Undone(regs, tids[..k + 1], undo)
              == (if FaultOf(regs, undo, tids[k]) !in {OpenFails, WriteFails}
                  then Undone(regs, tids[..k], undo) + {tids[k]}
                  else Undone(regs, tids[..k], undo))
  {
  }

  lemma WriteOne(regs: Registers, ts: set<int>, t: int, slot: nat, v: Slot)
    ensures WithSlot(WithSlot(regs, ts, slot, v), {t}, slot, v) == WithSlot(regs, ts + {t}, slot, v)
  {
    if t in regs { assert SlotSet(SlotSet(regs[t], slot, v), slot, v) == SlotSet(regs[t], slot, v); }
  }
}
