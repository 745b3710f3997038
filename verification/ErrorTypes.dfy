/** The parent chains of the error table and the generated walk along them. */
module ErrorTypes {
  import opened Base
  import opened ErrorTable

  // ----- From entries to parents

  /** What the build script checks: every parent is an entry, and so is the default one. */
  predicate ParentsValid(entries: seq<Entry>) {
    (forall e :: e in entries ==> Named(entries, e.parent)) && Named(entries, DEFAULT_PARENT)
  }

  predicate Named(entries: seq<Entry>, name: string) {
    exists f :: f in entries && f.name == name
  }

  predicate NamesDistinct(entries: seq<Entry>) {
    forall i, j :: 0 <= i < j < |entries| ==> entries[i].name != entries[j].name
  }

  /** The place of the entry of a name, or the number of entries. */
  function PlaceOf(entries: seq<Entry>, name: string): (i: nat)
    ensures i <= |entries| && (i < |entries| ==> entries[i].name == name)
    ensures i < |entries| <==> Named(entries, name)
  {
    if entries == [] then 0
    else if entries[0].name == name then 0
    else
      assert forall f :: f in entries <==> f == entries[0] || f in entries[1..];
      1 + PlaceOf(entries[1..], name)
  }

  /** A table of parents, by the places of the entries. */
  type Parents = seq<nat>

  predicate Closed(p: Parents) {
    forall i :: 0 <= i < |p| ==> p[i] < |p|
  }

  function ParentsOf(entries: seq<Entry>): (p: Parents) {
    seq(|entries|, i requires 0 <= i < |entries| => PlaceOf(entries, entries[i].parent))
  }

  /** The check passes exactly when parents are a total function on the entries and the default parent is one. */
  lemma ParentsAreTotal(entries: seq<Entry>)
    ensures ParentsValid(entries) <==> Closed(ParentsOf(entries)) && Named(entries, DEFAULT_PARENT)
    ensures Closed(ParentsOf(entries)) ==>
      forall i :: 0 <= i < |entries| ==> entries[ParentsOf(entries)[i]].name == entries[i].parent
  {
    var p := ParentsOf(entries);
    assert forall i :: 0 <= i < |entries| ==> p[i] == PlaceOf(entries, entries[i].parent);
    if ParentsValid(entries) {
      forall i | 0 <= i < |entries| ensures p[i] < |p| {
        assert Named(entries, entries[i].parent);
      }
    }
    if Closed(p) {
      forall e | e in entries ensures Named(entries, e.parent) {
        var i :| 0 <= i < |entries| && entries[i] == e;
        assert p[i] < |p|;
      }
    }
  }

  // ----- Chains

  /** The entry `k` parent steps up. */
  function Up(p: Parents, i: nat, k: nat): (j: nat)
    requires Closed(p) && i < |p|
    ensures j < |p|
  {
    if k == 0 then i else p[Up(p, i, k - 1)]
  }

  /** The walk from `i` for `target` ends after `k` steps: found, or at an entry that is its own parent. */
  ghost predicate StopsAt(p: Parents, i: nat, target: nat, k: nat)
    requires Closed(p) && i < |p|
  {
    Up(p, i, k + 1) == target || Up(p, i, k + 1) == Up(p, i, k)
  }

  ghost predicate Stops(p: Parents, i: nat, target: nat)
    requires Closed(p) && i < |p|
  {
    exists k: nat :: StopsAt(p, i, target, k)
  }

  /** `target` is one or more parent steps above `i`. */
  ghost predicate Above(p: Parents, i: nat, target: nat)
    requires Closed(p) && i < |p|
  {
    exists k: nat :: k >= 1 && Up(p, i, k) == target
  }

  /** The walk, given a number of steps to try; `None` when it has not ended by then. */
  function Walk(p: Parents, find: nat, target: nat, steps: nat): Option<bool>
    requires Closed(p) && find < |p|
    decreases steps
  {
    if steps == 0 then None else
      var next := p[find];
      if next == target then Some(true)
      else if next == find then Some(false)
      else Walk(p, next, target, steps - 1)
  }

  lemma {:induction false} UpFromParent(p: Parents, i: nat, k: nat)
    requires Closed(p) && i < |p|
    ensures Up(p, p[i], k) == Up(p, i, k + 1)
  {
    if k > 0 {
      UpFromParent(p, i, k - 1);
    }
  }

  lemma {:induction false} StaysAtLoop(p: Parents, i: nat, j: nat, k: nat)
    requires Closed(p) && i < |p| && j <= k && p[Up(p, i, j)] == Up(p, i, j)
    ensures Up(p, i, k) == Up(p, i, j)
  {
    if j < k {
      StaysAtLoop(p, i, j, k - 1);
    }
  }

  /** When the walk ends it answers whether the target is above. */
  lemma {:induction false} WalkAnswers(p: Parents, i: nat, target: nat, steps: nat)
    requires Closed(p) && i < |p| && Walk(p, i, target, steps).Some?
    ensures Walk(p, i, target, steps).value <==> Above(p, i, target)
    decreases steps
  {
    assert Up(p, i, 0) == i && Up(p, i, 1) == p[i];
    if p[i] == i {
      forall k: nat | k >= 1 ensures Up(p, i, k) == i {
        StaysAtLoop(p, i, 0, k);
      }
    } else if p[i] != target {
      WalkAnswers(p, p[i], target, steps - 1);
      AboveParent(p, i, target);
    }
  }

  lemma AboveParent(p: Parents, i: nat, target: nat)
    requires Closed(p) && i < |p| && p[i] != target
    ensures Above(p, i, target) <==> Above(p, p[i], target)
  {
    assert Up(p, i, 1) == p[i] by { assert Up(p, i, 0) == i; }
    if Above(p, i, target) {
      var k: nat :| k >= 1 && Up(p, i, k) == target;
      UpFromParent(p, i, k - 1);
      assert k > 1 && Up(p, p[i], k - 1) == target;
    }
    if Above(p, p[i], target) {
      var k: nat :| k >= 1 && Up(p, p[i], k) == target;
      UpFromParent(p, i, k);
      assert Up(p, i, k + 1) == target;
    }
  }

  lemma {:induction false} WalkEndsAt(p: Parents, i: nat, target: nat, k: nat)
    requires Closed(p) && i < |p| && StopsAt(p, i, target, k)
    ensures Walk(p, i, target, k + 1).Some?
    decreases k
  {
    assert Up(p, i, 0) == i && Up(p, i, 1) == p[i];
    if k > 0 {
      UpFromParent(p, i, k);
      UpFromParent(p, i, k - 1);
      WalkEndsAt(p, p[i], target, k - 1);
    }
  }

  lemma {:induction false} WalkEndStops(p: Parents, i: nat, target: nat, steps: nat)
    requires Closed(p) && i < |p| && Walk(p, i, target, steps).Some?
    ensures Stops(p, i, target)
    decreases steps
  {
    assert Up(p, i, 0) == i && Up(p, i, 1) == p[i];
    if p[i] == target || p[i] == i {
      assert StopsAt(p, i, target, 0);
    } else {
      WalkEndStops(p, p[i], target, steps - 1);
      var k: nat :| StopsAt(p, p[i], target, k);
      UpFromParent(p, i, k);
      UpFromParent(p, i, k + 1);
      assert StopsAt(p, i, target, k + 1);
    }
  }

  /** The walk ends in some number of steps exactly when the chain finds the target or a self-loop. */
  lemma WalkEndsExactlyWhen(p: Parents, i: nat, target: nat)
    requires Closed(p) && i < |p|
    ensures (exists steps: nat :: Walk(p, i, target, steps).Some?) <==> Stops(p, i, target)
  {
    if Stops(p, i, target) {
      var k: nat :| StopsAt(p, i, target, k);
      WalkEndsAt(p, i, target, k);
      var steps := k + 1;
      assert Walk(p, i, target, steps).Some?;
    }
    if steps: nat :| Walk(p, i, target, steps).Some? {
      WalkEndStops(p, i, target, steps);
    }
  }

  // ----- The generated walk

  /** `extends`: ends wherever the walk does, with the right answer. */
  method Extends(p: Parents, self: nat, target: nat) returns (found: bool)
    requires Closed(p) && self < |p| && Stops(p, self, target)
    ensures found <==> Above(p, self, target)
  {
    var find := self;
    ghost var steps: nat := 0;
    ghost var end: nat :| StopsAt(p, self, target, end);
    assert Up(p, self, 0) == self;
    while true
      invariant find < |p| && steps <= end && find == Up(p, self, steps)
      invariant forall k :: 1 <= k <= steps ==> Up(p, self, k) != target
      decreases end - steps
    {
      var next := p[find];
      assert next == Up(p, self, steps + 1);
      if next == target {
        return true;
      }
      if next == find {
        forall k: nat | k >= 1 ensures Up(p, self, k) != target {
          if k > steps {
            StaysAtLoop(p, self, steps, k);
          }
        }
        return false;
      }
      find := next;
      steps := steps + 1;
    }
  }

  // ----- Tables on which every walk ends

  /** The entry `k` steps above `i` is its own parent. */
  ghost predicate LoopsAt(p: Parents, i: nat, k: nat)
    requires Closed(p) && i < |p|
  {
    p[Up(p, i, k)] == Up(p, i, k)
  }

  ghost predicate ReachesLoop(p: Parents, i: nat)
    requires Closed(p) && i < |p|
  {
    exists k: nat :: LoopsAt(p, i, k)
  }

  /** Every chain comes to an entry that is its own parent. */
  ghost predicate Rooted(p: Parents)
    requires Closed(p)
  {
    forall i :: 0 <= i < |p| ==> ReachesLoop(p, i)
  }

  ghost predicate EveryWalkEnds(p: Parents)
    requires Closed(p)
  {
    forall i, target :: 0 <= i < |p| && 0 <= target < |p| ==> Stops(p, i, target)
  }

  /**
   * With a root that is its own parent, as the runtime entry is, every walk
   * ends exactly when every chain comes to a self-loop.
   */
  lemma EveryWalkEndsExactlyWhenRooted(p: Parents, root: nat)
    requires Closed(p) && root < |p| && p[root] == root
    ensures EveryWalkEnds(p) <==> Rooted(p)
  {
    if Rooted(p) {
      forall i, target | 0 <= i < |p| && 0 <= target < |p| ensures Stops(p, i, target) {
        assert ReachesLoop(p, i);
        var k: nat :| LoopsAt(p, i, k);
        assert StopsAt(p, i, target, k);
      }
    }
    if EveryWalkEnds(p) {
      forall i | 0 <= i < |p| ensures ReachesLoop(p, i) {
        assert Stops(p, i, root);
        var k: nat :| StopsAt(p, i, root, k);
        assert LoopsAt(p, i, k) || LoopsAt(p, i, k + 1);
      }
    }
  }

  /** After as many steps as there are entries every chain is at an entry that is its own parent. */
  predicate LoopsInTime(p: Parents)
    requires Closed(p)
  {
    forall i :: 0 <= i < |p| ==> p[Up(p, i, |p|)] == Up(p, i, |p|)
  }

  lemma {:induction false} UpFromSame(p: Parents, i: nat, a: nat, b: nat, m: nat)
    requires Closed(p) && i < |p| && Up(p, i, a) == Up(p, i, b)
    ensures Up(p, i, a + m) == Up(p, i, b + m)
  {
    if m > 0 {
      UpFromSame(p, i, a, b, m - 1);
    }
  }

  /** A chain longer than the table goes round in a circle, so a self-loop it comes to it comes to in time. */
  lemma {:induction false} LoopInTime(p: Parents, i: nat, k: nat)
    requires Closed(p) && i < |p| && LoopsAt(p, i, k)
    ensures LoopsAt(p, i, |p|)
    decreases k
  {
    if k <= |p| {
      StaysAtLoop(p, i, k, |p|);
    } else {
      var a, b := Pigeonhole(seq(|p| + 1, m requires m >= 0 => Up(p, i, m)), |p|);
      UpFromSame(p, i, a, b, k - b);
      LoopInTime(p, i, a + (k - b));
    }
  }

  /** So whether every walk ends can be checked in as many steps as the table has entries. */
  lemma EveryWalkEndsExactlyWhenLoopsInTime(p: Parents, root: nat)
    requires Closed(p) && root < |p| && p[root] == root
    ensures EveryWalkEnds(p) <==> LoopsInTime(p)
  {
    EveryWalkEndsExactlyWhenRooted(p, root);
    if Rooted(p) {
      forall i | 0 <= i < |p| ensures p[Up(p, i, |p|)] == Up(p, i, |p|) {
        assert ReachesLoop(p, i);
        var k: nat :| LoopsAt(p, i, k);
        LoopInTime(p, i, k);
      }
    }
    if LoopsInTime(p) {
      forall i | 0 <= i < |p| ensures ReachesLoop(p, i) {
        assert LoopsAt(p, i, |p|);
      }
    }
  }

  /** Every walk from `i` ends within so many steps. */
  ghost predicate WalksWithin(p: Parents, i: nat, steps: nat)
    requires Closed(p) && i < |p|
  {
    forall target: nat :: Walk(p, i, target, steps).Some?
  }

  /**
   * A table whose depth falls along every parent step is rooted, and depth is a
   * measure for every walk: it ends within as many steps and one more.
   */
  lemma DepthRoots(p: Parents, depth: seq<nat>, root: nat)
    requires Closed(p) && root < |p| && p[root] == root && |depth| == |p|
    requires forall i :: 0 <= i < |p| && i != root ==> depth[p[i]] < depth[i]
    ensures Rooted(p)
    ensures forall i :: 0 <= i < |p| ==> WalksWithin(p, i, depth[i] + 1)
  {
    forall i | 0 <= i < |p| ensures ReachesLoop(p, i) {
      var k := ClimbToRoot(p, depth, root, i, 0);
      assert LoopsAt(p, i, k);
    }
    forall i | 0 <= i < |p| ensures WalksWithin(p, i, depth[i] + 1) {
      var steps := depth[i] + 1;
      forall target: nat ensures Walk(p, i, target, steps).Some? {
        WalkWithinDepth(p, depth, root, i, target, steps);
      }
    }
  }

  lemma {:induction false} WalkWithinDepth(p: Parents, depth: seq<nat>, root: nat, i: nat, target: nat, steps: nat)
    requires Closed(p) && root < |p| && p[root] == root && |depth| == |p| && i < |p| && steps > depth[i]
    requires forall i :: 0 <= i < |p| && i != root ==> depth[p[i]] < depth[i]
    ensures Walk(p, i, target, steps).Some?
    decreases steps
  {
    if i != root && p[i] != target {
      WalkWithinDepth(p, depth, root, p[i], target, steps - 1);
    }
  }

  lemma {:induction false} ClimbToRoot(p: Parents, depth: seq<nat>, root: nat, i: nat, from: nat) returns (k: nat)
    requires Closed(p) && root < |p| && p[root] == root && |depth| == |p| && i < |p|
    requires forall i :: 0 <= i < |p| && i != root ==> depth[p[i]] < depth[i]
    ensures Up(p, i, k) == root
    decreases depth[Up(p, i, from)]
  {
    if Up(p, i, from) == root {
      return from;
    }
    assert Up(p, i, from + 1) == p[Up(p, i, from)];
    k := ClimbToRoot(p, depth, root, i, from + 1);
  }

  /** That every parent exists is not enough: here two entries are each other's parent. */
  function Cycle(): seq<Entry> {
    [Entry("runtime", 122, false, "runtime"), Entry("a", 1, false, "b"), Entry("b", 2, false, "a")]
  }

  lemma {:induction false} CycleWalk(steps: nat)
    ensures Walk([0, 2, 1], 1, 0, steps) == None && Walk([0, 2, 1], 2, 0, steps) == None
  {
    if steps > 0 {
      CycleWalk(steps - 1);
    }
  }

  lemma CycleParents()
    ensures ParentsValid(Cycle()) && NamesDistinct(Cycle()) && ParentsOf(Cycle()) == [0, 2, 1]
  {
    hide PlaceOf;
    var entries := Cycle();
    CycleNames();
    DistinctPlace(entries, "runtime", 0);
    DistinctPlace(entries, "a", 1);
    DistinctPlace(entries, "b", 2);
  }

  lemma CycleNames()
    ensures NamesDistinct(Cycle()) && ParentsValid(Cycle())
  {
    var entries := Cycle();
    var r, a, b := entries[0], entries[1], entries[2];
    assert r in entries && a in entries && b in entries;
    assert Named(entries, "runtime") && Named(entries, "a") && Named(entries, "b");
  }

  lemma DistinctPlace(entries: seq<Entry>, name: string, i: nat)
    requires NamesDistinct(entries) && i < |entries| && entries[i].name == name
    ensures PlaceOf(entries, name) == i
  {
    assert entries[i] in entries;
    assert Named(entries, name);
  }

  lemma ParentExistenceIsNotEnough()
    ensures ParentsValid(Cycle()) && NamesDistinct(Cycle()) && Closed(ParentsOf(Cycle()))
    ensures forall steps: nat :: Walk(ParentsOf(Cycle()), 1, 0, steps) == None
  {
    CycleParents();
    forall steps: nat ensures Walk(ParentsOf(Cycle()), 1, 0, steps) == None {
      CycleWalk(steps);
    }
  }
}
