/** Listing the descendants of a process from a snapshot, whose parent links may form cycles. */
module Processes {
  datatype Proc = Proc(pid: int, parent: int)

  /** The identifiers at most `n` parent links below a process. */
  ghost function Within(snapshot: seq<Proc>, root: int, n: nat): set<int> {
    if n == 0 then {root}
    else Within(snapshot, root, n - 1) + set p | p in snapshot && p.parent in Within(snapshot, root, n - 1) :: p.pid
  }

  ghost predicate Descends(snapshot: seq<Proc>, root: int, pid: int) {
    exists n: nat :: pid in Within(snapshot, root, n)
  }

  ghost predicate IsChain(snapshot: seq<Proc>, root: int, chain: seq<int>) {
    && |chain| > 0 && chain[0] == root
    && forall i :: 0 <= i < |chain| - 1 ==> Proc(chain[i + 1], chain[i]) in snapshot
  }

  /** Descending is being at the end of a chain of parent links. */
  lemma {:induction false} ChainDescends(snapshot: seq<Proc>, root: int, chain: seq<int>)
    requires IsChain(snapshot, root, chain)
    ensures chain[|chain| - 1] in Within(snapshot, root, |chain| - 1)
    decreases |chain|
  {
    if |chain| > 1 {
      var init := chain[..|chain| - 1];
      ChainDescends(snapshot, root, init);
      assert Proc(chain[|chain| - 2 + 1], chain[|chain| - 2]) in snapshot;
    }
  }

  lemma {:induction false} DescendsByChain(snapshot: seq<Proc>, root: int, n: nat, pid: int) returns (chain: seq<int>)
    requires pid in Within(snapshot, root, n)
    ensures IsChain(snapshot, root, chain) && chain[|chain| - 1] == pid && |chain| <= n + 1
    decreases n
  {
    if n == 0 {
      chain := [root];
    } else if pid in Within(snapshot, root, n - 1) {
      chain := DescendsByChain(snapshot, root, n - 1, pid);
    } else {
      var p :| p in snapshot && p.parent in Within(snapshot, root, n - 1) && p.pid == pid;
      chain := DescendsByChain(snapshot, root, n - 1, p.parent);
      chain := chain + [pid];
    }
  }

  lemma {:induction false} WithinGrows(snapshot: seq<Proc>, root: int, m: nat, n: nat)
    requires m <= n
    ensures Within(snapshot, root, m) <= Within(snapshot, root, n)
    decreases n
  {
    if m < n { WithinGrows(snapshot, root, m, n - 1); }
  }

  /** Once a level adds nothing, nothing lies deeper. */
  lemma {:induction false} NothingDeeper(snapshot: seq<Proc>, root: int, m: nat, n: nat)
    requires Within(snapshot, root, m + 1) == Within(snapshot, root, m)
    ensures Within(snapshot, root, n) <= Within(snapshot, root, m)
    decreases n
  {
    if n <= m {
      WithinGrows(snapshot, root, n, m);
    } else {
      NothingDeeper(snapshot, root, m, n - 1);
      forall pid | pid in Within(snapshot, root, n) ensures pid in Within(snapshot, root, m + 1) {
        if pid !in Within(snapshot, root, n - 1) {
          var p :| p in snapshot && p.parent in Within(snapshot, root, n - 1) && p.pid == pid;
        }
      }
    }
  }

  function Members(pids: seq<int>): (r: set<int>)
    ensures forall f :: f in r <==> f in pids
  {
    set f | f in pids
  }

  function Pids(procs: seq<Proc>): set<int> { set p | p in procs :: p.pid }

  /** Entries of the snapshot, each process once, the shallower ones first. */
  ghost predicate Listing(snapshot: seq<Proc>, root: int, children: seq<Proc>) {
    && (forall p :: p in children ==> p in snapshot && p.pid != root)
    && (forall i, j :: 0 <= i < j < |children| ==> children[i].pid != children[j].pid)
    && forall i, j, n: nat :: 0 <= i < j < |children| && children[j].pid in Within(snapshot, root, n) ==>
         children[i].pid in Within(snapshot, root, n)
  }

  /** The children of a process, or all its descendants. */
  method EnumerateChildProcesses(parent: int, snapshot: seq<Proc>, recursive: bool) returns (children: seq<Proc>)
    ensures Listing(snapshot, parent, children)
    ensures recursive ==> forall pid :: pid in Pids(children) <==> pid != parent && Descends(snapshot, parent, pid)
    ensures !recursive ==> forall pid :: pid in Pids(children) <==> pid != parent && Proc(pid, parent) in snapshot
  {
    hide Within, Listing;
    children := [];
    var frontier := [parent];
    var seen := {parent};
    ghost var n := 0;
    AtRoot(snapshot, parent);
    while frontier != []
      invariant Level(snapshot, parent, n, children, Members(frontier), seen)
      invariant !recursive ==> n == 0
      decreases |Pids(snapshot) + {parent} - seen|, |frontier|
    {
      ghost var before := seen;
      children, frontier, seen := NextLevel(parent, snapshot, frontier, children, seen, n);
      n := n + 1;
      SeenShrinksRest(snapshot, parent, before, seen, frontier);
      if !recursive { break; }
    }
    LevelLists(snapshot, parent, n, children, Members(frontier), seen);
    if recursive {
      AllSeen(snapshot, parent, n, children, seen);
    } else {
      FirstLevel(snapshot, parent, seen, children);
    }
  }

  /** After `n` levels: everything up to that depth is seen, the frontier has what the last
      level added, and all but the root is listed. */
  ghost predicate Level(snapshot: seq<Proc>, root: int, n: nat, children: seq<Proc>, frontier: set<int>,
                        seen: set<int>) {
    && seen == Within(snapshot, root, n) && Pids(children) + {root} == seen
    && Listing(snapshot, root, children)
    && (n == 0 ==> frontier == {root}) && (n > 0 ==> frontier == seen - Within(snapshot, root, n - 1))
    && seen <= Pids(snapshot) + {root}
  }

  lemma AtRoot(snapshot: seq<Proc>, root: int)
    ensures Level(snapshot, root, 0, [], Members([root]), {root})
  {
    assert Pids([]) == {};
    assert Members([root]) == {root};
  }

  /** One pass over the snapshot. */
  method NextLevel(parent: int, snapshot: seq<Proc>, frontier: seq<int>, children: seq<Proc>, seen: set<int>,
                   ghost n: nat)
    returns (children': seq<Proc>, frontier': seq<int>, seen': set<int>)
    requires Level(snapshot, parent, n, children, Members(frontier), seen)
    ensures Level(snapshot, parent, n + 1, children', Members(frontier'), seen')
    ensures seen' == seen + Members(frontier') && forall f :: f in frontier' ==> f !in seen
    ensures seen' <= Pids(snapshot) + {parent}
  {
    hide Within, Level;
    var wanted := Members(frontier);
    children', frontier', seen' := children, [], seen;
    PassStarts(snapshot, parent, n, children, wanted, seen);
    for k := 0 to |snapshot|
      invariant Pass(snapshot, parent, n, wanted, seen, k, children', frontier', seen')
    {
      var proc := snapshot[k];
      PassOne(snapshot, parent, n, wanted, seen, k, children', frontier', seen');
      if proc.parent in wanted && proc.pid !in seen' {
        seen' := seen' + {proc.pid};
        children' := children' + [proc];
        frontier' := frontier' + [proc.pid];
      }
    }
    PassEnds(snapshot, parent, n, children, wanted, seen, children', frontier', seen');
  }

  /** Part of a pass: the children among the first `k` entries have been added. */
  ghost predicate Pass(snapshot: seq<Proc>, root: int, n: nat, wanted: set<int>, seen: set<int>, k: int,
                       children: seq<Proc>, frontier: seq<int>, now: set<int>) {
    && 0 <= k <= |snapshot| && seen == Within(snapshot, root, n) && wanted <= seen
    && Listing(snapshot, root, children) && Pids(children) + {root} == now
    && now == seen + Members(frontier)
    && (forall f :: f in frontier ==> f !in seen && f in Within(snapshot, root, n + 1))
    && (forall p :: p in snapshot[..k] && p.parent in wanted ==> p.pid in now)
    && now <= Pids(snapshot) + {root}
  }

  lemma PassStarts(snapshot: seq<Proc>, root: int, n: nat, children: seq<Proc>, wanted: set<int>, seen: set<int>)
    requires Level(snapshot, root, n, children, wanted, seen)
    ensures Pass(snapshot, root, n, wanted, seen, 0, children, [], seen)
  {
    hide Within, Listing;
    assert root in seen;
  }

  lemma PassOne(snapshot: seq<Proc>, root: int, n: nat, wanted: set<int>, seen: set<int>, k: int,
                children: seq<Proc>, frontier: seq<int>, now: set<int>)
    requires Pass(snapshot, root, n, wanted, seen, k, children, frontier, now) && k < |snapshot|
    ensures var p := snapshot[k];
            if p.parent in wanted && p.pid !in now then
              Pass(snapshot, root, n, wanted, seen, k + 1, children + [p], frontier + [p.pid], now + {p.pid})
            else Pass(snapshot, root, n, wanted, seen, k + 1, children, frontier, now)
  {
    hide Listing, Within, Pids;
    var p := snapshot[k];
    assert snapshot[..k + 1] == snapshot[..k] + [p] && p in snapshot;
    if p.parent in wanted && p.pid !in now {
      NextDepth(snapshot, root, n, p);
      PidsAppend(children, p);
      assert Members(frontier + [p.pid]) == Members(frontier) + {p.pid};
      ListsOneMore(snapshot, root, n, seen, children, frontier, now, p);
    }
  }

  lemma NextDepth(snapshot: seq<Proc>, root: int, n: nat, p: Proc)
    requires p in snapshot && p.parent in Within(snapshot, root, n)
    ensures p.pid in Within(snapshot, root, n + 1) && p.pid in Pids(snapshot)
  {
  }

  lemma PidsAppend(procs: seq<Proc>, p: Proc)
    ensures Pids(procs + [p]) == Pids(procs) + {p.pid}
  {
    assert p in procs + [p];
    forall q | q in procs ensures q in procs + [p] { }
  }

  lemma ListsOneMore(snapshot: seq<Proc>, root: int, n: nat, seen: set<int>, children: seq<Proc>, frontier: seq<int>,
                     now: set<int>, p: Proc)
    requires Listing(snapshot, root, children) && Pids(children) + {root} == now && now == seen + Members(frontier)
    requires seen == Within(snapshot, root, n) && forall f :: f in frontier ==> f in Within(snapshot, root, n + 1)
    requires p in snapshot && p.pid !in now
    ensures Listing(snapshot, root, children + [p])
  {
    hide Within;
    var more := children + [p];
    forall i, m: nat | 0 <= i < |children| && p.pid in Within(snapshot, root, m)
      ensures children[i].pid in Within(snapshot, root, m) {
      // p is not within n, so m is more than n, and all listed so far are within n + 1
      if m <= n { WithinGrows(snapshot, root, m, n); }
      assert children[i].pid in Pids(children);
      WithinGrows(snapshot, root, n + 1, m);
      WithinGrows(snapshot, root, n, n + 1);
    }
    forall i, j | 0 <= i < j < |more| ensures more[i].pid != more[j].pid {
      if j == |children| { assert children[i].pid in Pids(children); }
    }
  }

  /** A child of anything up to a level was wanted by the pass, or seen before it. */
  lemma WantedOrSeen(snapshot: seq<Proc>, root: int, n: nat, wanted: set<int>, seen: set<int>, p: Proc)
    requires seen == Within(snapshot, root, n) && (n == 0 ==> wanted == {root})
    requires n > 0 ==> wanted == seen - Within(snapshot, root, n - 1)
    requires p in snapshot && p.parent in Within(snapshot, root, n)
    ensures p.parent in wanted || p.pid in seen
  {
    if n == 0 {
      assert Within(snapshot, root, 0) == {root};
    } else {
      hide Within;
      if p.parent in Within(snapshot, root, n - 1) { NextDepth(snapshot, root, n - 1, p); }
    }
  }

  lemma ParentOf(snapshot: seq<Proc>, root: int, n: nat, pid: int) returns (p: Proc)
    requires pid in Within(snapshot, root, n + 1) && pid !in Within(snapshot, root, n)
    ensures p in snapshot && p.parent in Within(snapshot, root, n) && p.pid == pid
  {
    p :| p in snapshot && p.parent in Within(snapshot, root, n) && p.pid == pid;
  }

  lemma PassEnds(snapshot: seq<Proc>, root: int, n: nat, children0: seq<Proc>, wanted: set<int>, seen: set<int>,
                 children: seq<Proc>, frontier: seq<int>, now: set<int>)
    requires Level(snapshot, root, n, children0, wanted, seen)
    requires Pass(snapshot, root, n, wanted, seen, |snapshot|, children, frontier, now)
    ensures Level(snapshot, root, n + 1, children, Members(frontier), now)
  {
    hide Listing, Pids, Within;
    assert snapshot[..|snapshot|] == snapshot;
    WithinGrows(snapshot, root, n, n + 1);
    forall f ensures f in Members(frontier) <==> f in now - seen {
      assert f in Members(frontier) <==> f in frontier;
    }
    forall pid | pid in Within(snapshot, root, n + 1) ensures pid in now {
      if pid !in seen {
        var p := ParentOf(snapshot, root, n, pid);
        WantedOrSeen(snapshot, root, n, wanted, seen, p);
      }
    }
    forall f | f in now ensures f in Within(snapshot, root, n + 1) {
      if f !in seen { assert f in frontier; }
    }
    assert now == Within(snapshot, root, n + 1);
    assert Members(frontier) == now - Within(snapshot, root, n + 1 - 1);
  }

  lemma SeenShrinksRest(snapshot: seq<Proc>, root: int, before: set<int>, seen: set<int>, frontier: seq<int>)
    requires seen == before + Members(frontier) && forall f :: f in frontier ==> f !in before
    requires seen <= Pids(snapshot) + {root}
    ensures |Pids(snapshot) + {root} - seen| <= |Pids(snapshot) + {root} - before|
    ensures frontier != [] ==> |Pids(snapshot) + {root} - seen| < |Pids(snapshot) + {root} - before|
  {
    var all := Pids(snapshot) + {root};
    assert all - before == (all - seen) + Members(frontier);
    if frontier != [] { assert frontier[0] in Members(frontier); }
  }

  lemma LevelLists(snapshot: seq<Proc>, root: int, n: nat, children: seq<Proc>, frontier: set<int>, seen: set<int>)
    requires Level(snapshot, root, n, children, frontier, seen)
    ensures Listing(snapshot, root, children) && Pids(children) == seen - {root}
  {
    forall pid | pid in Pids(children) ensures pid != root { }
  }

  lemma AllSeen(snapshot: seq<Proc>, root: int, n: nat, children: seq<Proc>, seen: set<int>)
    requires Level(snapshot, root, n, children, {}, seen)
    ensures forall pid :: pid in seen <==> Descends(snapshot, root, pid)
  {
    hide Listing, Pids, Within;
    if n > 0 {
      WithinGrows(snapshot, root, n - 1, n);
      forall pid | pid in seen ensures pid in Within(snapshot, root, n - 1) {
        assert pid !in seen - Within(snapshot, root, n - 1);
      }
      assert Within(snapshot, root, n - 1 + 1) == Within(snapshot, root, n - 1);
      forall pid | Descends(snapshot, root, pid) ensures pid in seen {
        var m: nat :| pid in Within(snapshot, root, m);
        NothingDeeper(snapshot, root, n - 1, m);
      }
    }
  }

  lemma FirstLevel(snapshot: seq<Proc>, root: int, seen: set<int>, children: seq<Proc>)
    requires seen == Within(snapshot, root, 1)
    ensures forall pid :: pid in seen - {root} <==> pid != root && Proc(pid, root) in snapshot
  {
    assert Within(snapshot, root, 0) == {root};
  }
}
