/** What visiting instructions names: trusted starts, branch targets and import thunks; and the
    bytes it claims. */
module Names {
  import opened Wrappers
  import opened Image
  import opened Functions
  import opened Decoder
  import opened Descent

  /** Branch targets, trusted starts, import thunks with their slots, and the claims made on bytes. */
  datatype Names = Names(callTargets: set<nat>, confident: set<nat>, thunks: map<nat, int>, claims: seq<Claim>)

  // ----- import thunks -----

  /** The import slot that an instruction's operands name, if any. */
  function ThunkSlot(image: Image, insn: Insn, iat: set<int>, ops: seq<Operand>): Option<int> {
    if ops == [] then None
    else if MemoryAddress(insn, ops[0], image).Some? && MemoryAddress(insn, ops[0], image).value in iat then
      MemoryAddress(insn, ops[0], image)
    else ThunkSlot(image, insn, iat, ops[1..])
  }

  /** The slot of a visited jump, when references are collected. */
  function SlotOf(image: Image, config: Config, iat: set<int>, insn: Insn): Option<int> {
    if config.collectXrefs && insn.isJmp && !insn.isCall then ThunkSlot(image, insn, iat, insn.operands) else None
  }

  ghost predicate NamesSlot(image: Image, insn: Insn, iat: set<int>, op: Operand, slot: int) {
    slot in iat && Refers(insn, op, image, (slot, MEMORY))
  }

  ghost predicate NamesNone(image: Image, insn: Insn, iat: set<int>, ops: seq<Operand>) {
    forall op, slot :: op in ops ==> !NamesSlot(image, insn, iat, op, slot)
  }

  /** The first operand that names any import slot names this one. */
  ghost predicate FirstSlot(image: Image, insn: Insn, iat: set<int>, ops: seq<Operand>, slot: int) {
    exists k :: 0 <= k < |ops| && NamesSlot(image, insn, iat, ops[k], slot) && NamesNone(image, insn, iat, ops[..k])
  }

  lemma {:induction false} ThunkSlotExactly(image: Image, insn: Insn, iat: set<int>, ops: seq<Operand>, slot: int)
    ensures ThunkSlot(image, insn, iat, ops) == Some(slot) <==> FirstSlot(image, insn, iat, ops, slot)
    ensures ThunkSlot(image, insn, iat, ops) == None <==> NamesNone(image, insn, iat, ops)
  {
    hide MemoryAddress, Refers;
    if ops != [] {
      ThunkSlotExactly(image, insn, iat, ops[1..], slot);
      SlotNamed(image, insn, iat, ops[0]);
      assert ops == [ops[0]] + ops[1..];
      if MemoryAddress(insn, ops[0], image).Some? && MemoryAddress(insn, ops[0], image).value in iat {
        FirstNames(image, insn, iat, ops, MemoryAddress(insn, ops[0], image).value, slot);
      } else {
        FirstNamesNone(image, insn, iat, ops, slot);
      }
    }
  }

  lemma SlotNamed(image: Image, insn: Insn, iat: set<int>, op: Operand)
    ensures forall slot :: NamesSlot(image, insn, iat, op, slot) <==>
                           slot in iat && MemoryAddress(insn, op, image) == Some(slot)
  {
    hide MemoryAddress, Refers;
    forall slot ensures Refers(insn, op, image, (slot, MEMORY)) <==> MemoryAddress(insn, op, image) == Some(slot) {
      AddressRefers(insn, op, image, slot);
    }
  }

  lemma FirstNames(image: Image, insn: Insn, iat: set<int>, ops: seq<Operand>, named: int, slot: int)
    requires ops != [] && forall s :: NamesSlot(image, insn, iat, ops[0], s) <==> s == named
    ensures FirstSlot(image, insn, iat, ops, slot) <==> slot == named
    ensures !NamesNone(image, insn, iat, ops)
  {
    hide NamesSlot;
    assert NamesSlot(image, insn, iat, ops[0], named) && NamesNone(image, insn, iat, ops[..0]);
    if FirstSlot(image, insn, iat, ops, slot) {
      var k :| 0 <= k < |ops| && NamesSlot(image, insn, iat, ops[k], slot) && NamesNone(image, insn, iat, ops[..k]);
    }
  }

  lemma FirstNamesNone(image: Image, insn: Insn, iat: set<int>, ops: seq<Operand>, slot: int)
    requires ops != [] && forall s :: !NamesSlot(image, insn, iat, ops[0], s)
    ensures FirstSlot(image, insn, iat, ops, slot) <==> FirstSlot(image, insn, iat, ops[1..], slot)
    ensures NamesNone(image, insn, iat, ops) <==> NamesNone(image, insn, iat, ops[1..])
  {
    hide NamesSlot;
    forall op ensures op in ops <==> op == ops[0] || op in ops[1..] { assert ops == [ops[0]] + ops[1..]; }
    forall k | 1 <= k <= |ops|
      ensures NamesNone(image, insn, iat, ops[..k]) <==> NamesNone(image, insn, iat, ops[1..][..k - 1]) {
      assert ops[..k] == [ops[0]] + ops[1..][..k - 1];
    }
    if FirstSlot(image, insn, iat, ops, slot) {
      var k :| 0 <= k < |ops| && NamesSlot(image, insn, iat, ops[k], slot) && NamesNone(image, insn, iat, ops[..k]);
      assert ops[k] == ops[1..][k - 1];
    }
    if FirstSlot(image, insn, iat, ops[1..], slot) {
      var k :| 0 <= k < |ops[1..]| && NamesSlot(image, insn, iat, ops[1..][k], slot)
               && NamesNone(image, insn, iat, ops[1..][..k]);
      assert ops[k + 1] == ops[1..][k];
    }
  }

  // ----- branch targets -----

  /** A visited instruction branches to executable code: to the immediate among its operands, or,
      when it has none, to where the branch was resolved to. */
  ghost predicate Branches(image: Image, claimed: Sizes, xrefs: set<Xref>, a: nat, t: nat) {
    a in claimed && InsnAt(image, a).Some? && IsExec(image, t) &&
    var insn := InsnAt(image, a).value;
    && (insn.isCall || insn.isJmp)
    && (|| (t < Span(image) && FirstImm(insn.operands) == Some(image.base + t))
        || ((forall op :: op in insn.operands ==> op.kind != IMM) && Xref(t, a, BRANCH) in xrefs))
  }

  predicate IsCallAt(image: Image, a: int) { InsnAt(image, a).Some? && InsnAt(image, a).value.isCall }

  ghost predicate Targeted(image: Image, claimed: Sizes, xrefs: set<Xref>, t: nat) {
    exists a: nat :: Branches(image, claimed, xrefs, a, t)
  }

  ghost predicate Called(image: Image, claimed: Sizes, xrefs: set<Xref>, t: nat) {
    exists a: nat :: Branches(image, claimed, xrefs, a, t) && IsCallAt(image, a)
  }

  /** What one visit branches to. */
  function Taken(image: Image, insn: Insn, resolved: Option<int>): set<nat> {
    DirectTarget(image, insn)
    + if IsIndirectBranch(insn) && resolved.Some? then ExecMember(image, resolved.value) else {}
  }

  lemma DirectExactly(image: Image, insn: Insn, t: nat)
    ensures t in DirectTarget(image, insn) <==>
            (insn.isCall || insn.isJmp) && FirstImm(insn.operands) == Some(image.base + t)
            && t < Span(image) && IsExec(image, t)
  {
    hide BranchTarget, IsExec, Span;
    TargetExactly(insn, image, insn.operands, t);
    if BranchTarget(insn, image).Some? { TargetExactly(insn, image, insn.operands, BranchTarget(insn, image).value); }
  }

  ghost predicate NoStray(claimed: Sizes, xrefs: set<Xref>) {
    forall t: nat, a: nat :: Xref(t, a, BRANCH) in xrefs ==> a in claimed
  }

  /** A visit adds what it branches to, and nothing else. */
  lemma BranchesAfter(image: Image, config: Config, p: Progress, rva: nat, insn: Insn, resolved: Option<int>,
                      a: nat, t: nat)
    requires CanVisit(image, p.queued, rva, insn, resolved) && NoStray(p.claimed, p.xrefs)
    ensures var p' := AfterInsn(image, config, p, rva, insn, resolved);
            Branches(image, p'.claimed, p'.xrefs, a, t) <==>
            Branches(image, p.claimed, p.xrefs, a, t) || (a == rva && t in Taken(image, insn, resolved))
  {
    hide InsnAt, OperandXrefs, OperandTargets, DirectTarget, IsExec, Span, FirstImm, Traced, Untraceable;
    DirectExactly(image, insn, t);
    OperandsHold(image, config, rva, insn);
    if IsIndirectBranch(insn) { IndirectIsNotDirect(image, insn); }
  }

  // ----- claims -----

  predicate ClaimOf(c: Claim, claimed: Sizes) { c.rva >= 0 && c.rva in claimed && c.size == claimed[c.rva] }

  ghost predicate HasClaim(claims: seq<Claim>, a: nat) { exists i :: 0 <= i < |claims| && claims[i].rva == a }

  /** Each claim is for an instruction visited; each of these has a claim; and only one, unless it
      runs past the image. */
  ghost predicate ClaimsOk(claims: seq<Claim>, claimed: Sizes, span: nat) {
    && (forall i :: 0 <= i < |claims| ==> ClaimOf(claims[i], claimed))
    && (forall a :: a in claimed ==> HasClaim(claims, a))
    && forall i, j :: 0 <= i < j < |claims| && claims[i].rva == claims[j].rva ==>
         claims[i].rva + claims[i].size > span
  }

  lemma OneMoreClaim(claims: seq<Claim>, claimed: Sizes, span: nat, rva: nat, size: nat)
    requires ClaimsOk(claims, claimed, span)
    requires rva in claimed ==> claimed[rva] == size && rva + size > span
    ensures ClaimsOk(claims + [Claim(rva, size)], claimed[rva := size], span)
  {
    var c := Claim(rva, size);
    forall a | a in claimed[rva := size] ensures HasClaim(claims + [c], a) {
      if a == rva {
        assert (claims + [c])[|claims|].rva == a;
      } else {
        assert HasClaim(claims, a);
        var i :| 0 <= i < |claims| && claims[i].rva == a;
        assert (claims + [c])[i].rva == a;
      }
    }
    forall i | 0 <= i < |claims| ensures ClaimOf(claims[i], claimed[rva := size]) {
      assert ClaimOf(claims[i], claimed);
    }
  }

  /** A byte is covered exactly when it lies in an instruction visited. */
  ghost predicate CoversVisited(covered: seq<bool>, claimed: Sizes) {
    forall b :: 0 <= b < |covered| ==> (covered[b] <==> exists a :: a in claimed && a <= b < a + claimed[a])
  }

  lemma ClaimsCover(covered: seq<bool>, overlap: nat, charges: Charges, claims: seq<Claim>, claimed: Sizes)
    requires Conserved(covered, overlap, charges, claims) && ClaimsOk(claims, claimed, |covered|)
    ensures CoversVisited(covered, claimed)
  {
    hide CountTrue, TotalClaimed, TotalCharged;
    forall b | 0 <= b < |covered| ensures covered[b] <==> exists a :: a in claimed && a <= b < a + claimed[a] {
      if covered[b] {
        var c :| c in claims && Claims(c, |covered|, b);
        assert ClaimOf(c, claimed);
      }
      if a :| a in claimed && a <= b < a + claimed[a] {
        assert HasClaim(claims, a);
        var i :| 0 <= i < |claims| && claims[i].rva == a;
        assert ClaimOf(claims[i], claimed) && Claims(claims[i], |covered|, b);
      }
    }
  }

  // ----- the names, as a whole -----

  /** The branch targets are what visited instructions branch to; the trusted starts are the trusted
      seeds, the thunks, and what visited calls call; the thunks are the visited jumps through an
      import slot, each with the first slot it names; and the claims are those of the visited. */
  ghost predicate NamesOk(image: Image, config: Config, iat: set<int>, trusted: set<nat>, claimed: Sizes,
                          xrefs: set<Xref>, n: Names) {
    && (forall t: nat :: t in n.callTargets <==> Targeted(image, claimed, xrefs, t))
    && (forall t: nat :: t in n.confident <==> t in trusted || t in n.thunks || Called(image, claimed, xrefs, t))
    && (forall a: nat :: a in n.thunks <==> a in claimed && HasSlot(image, config, iat, a))
    && (forall a: nat :: a in n.thunks ==> ThunkOf(image, iat, a, n.thunks[a]))
    && ClaimsOk(n.claims, claimed, Span(image)) && NoStray(claimed, xrefs)
  }

  ghost predicate HasSlot(image: Image, config: Config, iat: set<int>, a: nat) {
    config.collectXrefs && exists slot :: ThunkOf(image, iat, a, slot)
  }

  ghost predicate ThunkOf(image: Image, iat: set<int>, a: nat, slot: int) {
    InsnAt(image, a).Some? &&
    var insn := InsnAt(image, a).value;
    insn.isJmp && !insn.isCall && FirstSlot(image, insn, iat, insn.operands, slot)
  }

  lemma SlotExactly(image: Image, config: Config, iat: set<int>, a: nat)
    requires InsnAt(image, a).Some?
    ensures HasSlot(image, config, iat, a) <==> SlotOf(image, config, iat, InsnAt(image, a).value).Some?
    ensures var slot := SlotOf(image, config, iat, InsnAt(image, a).value);
            slot.Some? ==> ThunkOf(image, iat, a, slot.value)
  {
    hide InsnAt, FirstSlot, ThunkSlot;
    var insn := InsnAt(image, a).value;
    forall slot ensures FirstSlot(image, insn, iat, insn.operands, slot) <==>
                        ThunkSlot(image, insn, iat, insn.operands) == Some(slot) {
      ThunkSlotExactly(image, insn, iat, insn.operands, slot);
    }
    if SlotOf(image, config, iat, insn).Some? {
      assert ThunkOf(image, iat, a, SlotOf(image, config, iat, insn).value);
    }
  }

  function AfterNames(image: Image, config: Config, iat: set<int>, n: Names, rva: nat, insn: Insn,
                      resolved: Option<int>): Names {
    var taken, slot := Taken(image, insn, resolved), SlotOf(image, config, iat, insn);
    Names(n.callTargets + taken,
          n.confident + (if insn.isCall then taken else {}) + (if slot.Some? then {rva} else {}),
          if slot.Some? then n.thunks[rva := slot.value] else n.thunks,
          n.claims + [Claim(rva, insn.size)])
  }

  lemma NothingNamed(image: Image, config: Config, iat: set<int>, trusted: set<nat>)
    ensures NamesOk(image, config, iat, trusted, map[], {}, Names({}, trusted, map[], []))
  {
    hide InsnAt, IsExec, ThunkOf;
  }

  /** A visit keeps the names what they are to be. */
  lemma VisitNames(image: Image, config: Config, iat: set<int>, trusted: set<nat>, p: Progress, n: Names,
                   rva: nat, insn: Insn, resolved: Option<int>)
    requires NamesOk(image, config, iat, trusted, p.claimed, p.xrefs, n)
    requires CanVisit(image, p.queued, rva, insn, resolved)
    requires rva in p.claimed ==> p.claimed[rva] == insn.size && rva + insn.size > Span(image)
    ensures var p' := AfterInsn(image, config, p, rva, insn, resolved);
            NamesOk(image, config, iat, trusted, p'.claimed, p'.xrefs,
                    AfterNames(image, config, iat, n, rva, insn, resolved))
  {
    hide CanVisit, ClaimsOk, ThunkOf, HasSlot, Branches, Taken, SlotOf, AfterInsn, InsnAt, Targeted, Called;
    var p' := AfterInsn(image, config, p, rva, insn, resolved);
    VisitedOnly(image, config, p, rva, insn, resolved);
    OneMoreClaim(n.claims, p.claimed, Span(image), rva, insn.size);
    SlotExactly(image, config, iat, rva);
    forall t: nat ensures Targeted(image, p'.claimed, p'.xrefs, t) <==>
                          Targeted(image, p.claimed, p.xrefs, t) || t in Taken(image, insn, resolved) {
      TargetedAfter(image, config, p, rva, insn, resolved, t);
    }
    forall t: nat ensures Called(image, p'.claimed, p'.xrefs, t) <==>
                          Called(image, p.claimed, p.xrefs, t) || (insn.isCall && t in Taken(image, insn, resolved)) {
      TargetedAfter(image, config, p, rva, insn, resolved, t);
    }
  }

  lemma VisitedOnly(image: Image, config: Config, p: Progress, rva: nat, insn: Insn, resolved: Option<int>)
    requires CanVisit(image, p.queued, rva, insn, resolved) && NoStray(p.claimed, p.xrefs)
    ensures InsnAt(image, rva) == Some(insn)
    ensures var p' := AfterInsn(image, config, p, rva, insn, resolved);
            p'.claimed == p.claimed[rva := insn.size] && NoStray(p'.claimed, p'.xrefs)
  {
    hide InsnAt, OperandXrefs, OperandTargets, DirectTarget, Traced, Untraceable;
    OperandsHold(image, config, rva, insn);
  }

  lemma TargetedAfter(image: Image, config: Config, p: Progress, rva: nat, insn: Insn, resolved: Option<int>, t: nat)
    requires CanVisit(image, p.queued, rva, insn, resolved) && NoStray(p.claimed, p.xrefs)
    ensures var p' := AfterInsn(image, config, p, rva, insn, resolved);
            && (Targeted(image, p'.claimed, p'.xrefs, t) <==>
                  Targeted(image, p.claimed, p.xrefs, t) || t in Taken(image, insn, resolved))
            && (Called(image, p'.claimed, p'.xrefs, t) <==>
                  Called(image, p.claimed, p.xrefs, t) || (insn.isCall && t in Taken(image, insn, resolved)))
  {
    hide Branches, Taken, AfterInsn, InsnAt;
    var p' := AfterInsn(image, config, p, rva, insn, resolved);
    forall a: nat ensures Branches(image, p'.claimed, p'.xrefs, a, t) <==>
                          Branches(image, p.claimed, p.xrefs, a, t) || (a == rva && t in Taken(image, insn, resolved)) {
      BranchesAfter(image, config, p, rva, insn, resolved, a, t);
    }
    if Targeted(image, p.claimed, p.xrefs, t) {
      var a: nat :| Branches(image, p.claimed, p.xrefs, a, t);
      assert Branches(image, p'.claimed, p'.xrefs, a, t);
    }
    if Called(image, p.claimed, p.xrefs, t) {
      var a: nat :| Branches(image, p.claimed, p.xrefs, a, t) && IsCallAt(image, a);
      assert Branches(image, p'.claimed, p'.xrefs, a, t);
    }
    if t in Taken(image, insn, resolved) { assert Branches(image, p'.claimed, p'.xrefs, rva, t); }
  }
}
