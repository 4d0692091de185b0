/** Rebuilding a split tree from its snapshot. */
module TreeRestore {
  import opened Basics

  const RATIO_MIN: real := 0.1
  const RATIO_MAX: real := 0.9

  datatype SplitAxis = Horizontal | Vertical

  /** The live tree. */
  datatype SplitTree =
    | Leaf(pane: nat)
    | Split(axis: SplitAxis, ratio: real, first: SplitTree, second: SplitTree)

  /** The serialised tree; any ratio and any pane may occur in it. */
  datatype SplitTreeState =
    | LeafState(paneId: nat)
    | SplitState(axis: SplitAxis, ratio: real, first: SplitTreeState, second: SplitTreeState)

  datatype RestoreError = MissingPane(pane: nat) | RepeatedPane(pane: nat) | LeavesMismatch

  function Snapshot(tree: SplitTree): SplitTreeState {
    match tree
    case Leaf(pane) => LeafState(pane)
    case Split(axis, ratio, first, second) => SplitState(axis, ratio, Snapshot(first), Snapshot(second))
  }

  function PanesCount(state: SplitTreeState): nat {
    match state
    case LeafState(_) => 1
    case SplitState(_, _, first, second) => PanesCount(first) + PanesCount(second)
  }

  function Clamp(ratio: real): real {
    if ratio < RATIO_MIN then RATIO_MIN else if ratio > RATIO_MAX then RATIO_MAX else ratio
  }

  // ----- what restoring must do -----

  /** The panes of the leaves, first subtree before second. */
  function Leaves(state: SplitTreeState): seq<nat> {
    match state
    case LeafState(pane) => [pane]
    case SplitState(_, _, first, second) => Leaves(first) + Leaves(second)
  }

  /** The same tree with every ratio pulled into range. */
  function Clamped(state: SplitTreeState): SplitTree {
    match state
    case LeafState(pane) => Leaf(pane)
    case SplitState(axis, ratio, first, second) => Split(axis, Clamp(ratio), Clamped(first), Clamped(second))
  }

  /** The first leaf, from the left, that names no pane or one already used. */
  function FirstFault(leaves: seq<nat>, panes: seq<nat>, used: seq<nat>): Option<RestoreError>
    decreases |leaves|
  {
    if leaves == [] then None
    else if leaves[0] !in panes then Some(MissingPane(leaves[0]))
    else if leaves[0] in used then Some(RepeatedPane(leaves[0]))
    else FirstFault(leaves[1..], panes, used + [leaves[0]])
  }

  lemma {:induction false} FaultsJoin(a: seq<nat>, b: seq<nat>, panes: seq<nat>, used: seq<nat>)
    ensures FirstFault(a + b, panes, used)
         == if FirstFault(a, panes, used).Some? then FirstFault(a, panes, used) else FirstFault(b, panes, used + a)
    decreases |a|
  {
    if a == [] {
      assert a + b == b && used + a == used;
    } else {
      assert (a + b)[1..] == a[1..] + b;
      assert used + [a[0]] + a[1..] == used + a;
      FaultsJoin(a[1..], b, panes, used + [a[0]]);
    }
  }

  // ----- the recursion -----

  /** The recursion that threads the list of used panes is one scan over the leaves. */
  method RestoreTreeImpl(state: SplitTreeState, panes: seq<nat>, used0: seq<nat>)
    returns (result: Result<SplitTree, RestoreError>, used: seq<nat>)
    ensures var fault := FirstFault(Leaves(state), panes, used0);
            if fault.Some? then result == Err(fault.value)
            else result == Ok(Clamped(state)) && used == used0 + Leaves(state)
    decreases state
  {
    used := used0;
    match state
    case LeafState(pane) =>
      if pane !in panes {
        return Err(MissingPane(pane)), used;
      }
      if pane in used {
        return Err(RepeatedPane(pane)), used;
      }
      used := used + [pane];
      result := Ok(Leaf(pane));
    case SplitState(axis, ratio, first, second) =>
      FaultsJoin(Leaves(first), Leaves(second), panes, used0);
      var one;
      one, used := RestoreTreeImpl(first, panes, used);
      if one.Err? {
        return one, used;
      }
      var two;
      two, used := RestoreTreeImpl(second, panes, used);
      if two.Err? {
        return two, used;
      }
      result := Ok(Split(axis, Clamp(ratio), one.value, two.value));
  }

  // ----- sorting -----

  ghost predicate Sorted(s: seq<nat>) {
    forall i, j :: 0 <= i < j < |s| ==> s[i] <= s[j]
  }

  ghost predicate Ascending(s: seq<nat>) {
    forall i, j :: 0 <= i < j < |s| ==> s[i] < s[j]
  }

  /** Where `x` belongs in a sorted list. */
  function Insert(s: seq<nat>, x: nat): (r: seq<nat>) {
    if s == [] || s[|s| - 1] <= x then s + [x] else Insert(s[..|s| - 1], x) + [s[|s| - 1]]
  }

  lemma {:induction false} InsertAdds(s: seq<nat>, x: nat)
    ensures multiset(Insert(s, x)) == multiset(s) + multiset{x}
    decreases |s|
  {
    if s != [] && s[|s| - 1] > x {
      var front, last := s[..|s| - 1], s[|s| - 1];
      assert s == front + [last];
      InsertAdds(front, x);
    }
  }

  lemma {:induction false} AppendKeepsSorted(s: seq<nat>, x: nat)
    requires Sorted(s) && forall y :: y in s ==> y <= x
    ensures Sorted(s + [x])
  {
    var r := s + [x];
    forall i, j | 0 <= i < j < |r| ensures r[i] <= r[j] {
      if j == |s| {
        assert s[i] in s;
      }
    }
  }

  lemma {:induction false} InsertKeepsSorted(s: seq<nat>, x: nat)
    requires Sorted(s)
    ensures Sorted(Insert(s, x))
    decreases |s|
  {
    if s != [] && s[|s| - 1] > x {
      var front, last := s[..|s| - 1], s[|s| - 1];
      InsertKeepsSorted(front, x);
      InsertAdds(front, x);
      var r := Insert(front, x);
      forall y | y in r ensures y <= last {
        assert y in multiset(r);
        assert y in multiset(front) || y == x;
      }
      AppendKeepsSorted(r, last);
    }
  }

  method SortUnstable(s: seq<nat>) returns (r: seq<nat>)
    ensures Sorted(r) && multiset(r) == multiset(s)
  {
    r := [];
    for i := 0 to |s|
      invariant Sorted(r) && multiset(r) == multiset(s[..i])
    {
      assert s[..i + 1] == s[..i] + [s[i]];
      InsertKeepsSorted(r, s[i]);
      InsertAdds(r, s[i]);
      r := Insert(r, s[i]);
    }
    assert s[..|s|] == s;
  }

  lemma {:induction false} LastIsLargest(s: seq<nat>, x: nat)
    requires Sorted(s) && x in multiset(s)
    ensures x <= s[|s| - 1]
  {
  }

  lemma {:induction false} WithoutLast(s: seq<nat>)
    requires s != []
    ensures multiset(s[..|s| - 1]) == multiset(s) - multiset{s[|s| - 1]}
  {
    assert s == s[..|s| - 1] + [s[|s| - 1]];
  }

  lemma {:induction false} SameLast(a: seq<nat>, b: seq<nat>)
    requires Sorted(a) && Sorted(b) && multiset(a) == multiset(b) && a != []
    ensures b != [] && a[|a| - 1] == b[|b| - 1]
  {
    var x := a[|a| - 1];
    assert x in multiset(a);
    LastIsLargest(b, x);
    assert b[|b| - 1] in multiset(b);
    LastIsLargest(a, b[|b| - 1]);
  }

  /** A multiset has one sorted order. */
  lemma {:induction false} SortedIsDetermined(a: seq<nat>, b: seq<nat>)
    requires Sorted(a) && Sorted(b) && multiset(a) == multiset(b)
    ensures a == b
    decreases |a|
  {
    if a == [] {
      assert |multiset(b)| == 0;
    } else {
      SameLast(a, b);
      WithoutLast(a);
      WithoutLast(b);
      var p, q := a[..|a| - 1], b[..|b| - 1];
      SortedIsDetermined(p, q);
      assert a == p + [a[|a| - 1]] && b == q + [b[|b| - 1]];
    }
  }

  // ----- restoring -----

  ghost predicate Distinct(s: seq<nat>) {
    forall i, j :: 0 <= i < j < |s| ==> s[i] != s[j]
  }

  /** The leaves name every pane exactly once, and nothing else. */
  ghost predicate NamesEachPaneOnce(state: SplitTreeState, panes: seq<nat>) {
    Distinct(Leaves(state)) && forall p :: p in Leaves(state) <==> p in panes
  }

  /** There is no fault exactly when all leaves are panes, new and different. */
  lemma {:induction false} FaultlessWhen(leaves: seq<nat>, panes: seq<nat>, used: seq<nat>)
    ensures FirstFault(leaves, panes, used).None?
       <==> Distinct(leaves) && forall p :: p in leaves ==> p in panes && p !in used
    decreases |leaves|
  {
    if leaves != [] {
      var p, rest := leaves[0], leaves[1..];
      FaultlessWhen(rest, panes, used + [p]);
      assert leaves == [p] + rest;
      assert Distinct(leaves) <==> Distinct(rest) && p !in rest by {
        if Distinct(rest) && p !in rest {
          assert forall i, j :: 0 <= i < j < |leaves| ==> leaves[i] != leaves[j];
        }
        if Distinct(leaves) {
          assert forall j :: 0 <= j < |rest| ==> rest[j] == leaves[j + 1];
        }
      }
    }
  }

  /** Leaf i can be used behind the ones before it. */
  ghost predicate Usable(leaves: seq<nat>, panes: seq<nat>, used: seq<nat>, i: nat)
    requires i < |leaves|
  {
    leaves[i] in panes && leaves[i] !in used + leaves[..i]
  }

  /** Which fault it is: that of the first leaf that cannot be used, and a pane that does not exist is missing
      rather than repeated. */
  lemma {:induction false} FaultIs(leaves: seq<nat>, panes: seq<nat>, used: seq<nat>, i: nat)
    requires i < |leaves| && !Usable(leaves, panes, used, i) && forall j :: 0 <= j < i ==> Usable(leaves, panes, used, j)
    ensures FirstFault(leaves, panes, used) == Some(if leaves[i] !in panes then MissingPane(leaves[i]) else RepeatedPane(leaves[i]))
    decreases i
  {
    if i == 0 {
      assert used + leaves[..0] == used;
    } else {
      var first, rest := leaves[0], leaves[1..];
      assert Usable(leaves, panes, used, 0);
      forall j | 0 <= j < i ensures Usable(rest, panes, used + [first], j) <==> Usable(leaves, panes, used, j + 1) {
        assert used + [first] + rest[..j] == used + leaves[..j + 1];
      }
      FaultIs(rest, panes, used + [first], i - 1);
    }
  }

  lemma {:induction false} CountOfDistinct(s: seq<nat>, p: nat)
    requires Distinct(s)
    ensures multiset(s)[p] == if p in s then 1 else 0
    decreases |s|
  {
    if s != [] {
      var front := s[..|s| - 1];
      assert s == front + [s[|s| - 1]];
      CountOfDistinct(front, p);
    }
  }

  lemma {:induction false} SameListWhenSorted(leaves: seq<nat>, panes: seq<nat>)
    requires Distinct(leaves) && Distinct(panes)
    ensures multiset(leaves) == multiset(panes) <==> forall p :: p in leaves <==> p in panes
  {
    if forall p :: p in leaves <==> p in panes {
      forall p ensures multiset(leaves)[p] == multiset(panes)[p] {
        CountOfDistinct(leaves, p);
        CountOfDistinct(panes, p);
      }
    } else {
      assert multiset(leaves) == multiset(panes) ==>
        forall p :: (p in leaves <==> p in multiset(leaves)) && (p in panes <==> p in multiset(panes));
    }
  }

  /** The pane map is given by its keys in ascending order. */
  method RestoreTree(state: SplitTreeState, panes: seq<nat>) returns (result: Result<SplitTree, RestoreError>)
    requires Ascending(panes)
    ensures result.Ok? <==> NamesEachPaneOnce(state, panes)
    ensures result.Ok? ==> result.value == Clamped(state)
    ensures var fault := FirstFault(Leaves(state), panes, []);
            result.Err? ==> result.error == if fault.Some? then fault.value else LeavesMismatch
  {
    FaultlessWhen(Leaves(state), panes, []);
    var tree, used := RestoreTreeImpl(state, panes, []);
    if tree.Err? {
      return tree;
    }
    assert [] + Leaves(state) == Leaves(state);
    SameListWhenSorted(used, panes);
    var usedSorted := SortUnstable(used);
    var expected := SortUnstable(panes);
    if usedSorted != expected {
      if multiset(usedSorted) == multiset(expected) {
        SortedIsDetermined(usedSorted, expected);
      }
      return Err(LeavesMismatch);
    }
    return tree;
  }

  // ----- round trips -----

  predicate InRange(tree: SplitTree) {
    match tree
    case Leaf(_) => true
    case Split(_, ratio, first, second) => RATIO_MIN <= ratio <= RATIO_MAX && InRange(first) && InRange(second)
  }

  function PanesOf(tree: SplitTree): seq<nat> {
    match tree
    case Leaf(pane) => [pane]
    case Split(_, _, first, second) => PanesOf(first) + PanesOf(second)
  }

  /** Clamping keeps the panes in order and lands in range; it is the identity exactly there. */
  lemma {:induction false} ClampedKeepsPanes(state: SplitTreeState)
    ensures PanesOf(Clamped(state)) == Leaves(state) && InRange(Clamped(state))
    ensures |Leaves(state)| == PanesCount(state)
    ensures Snapshot(Clamped(state)) == state <==> InRange(Unclamped(state))
  {
    match state
    case LeafState(_) =>
    case SplitState(_, _, first, second) =>
      ClampedKeepsPanes(first);
      ClampedKeepsPanes(second);
  }

  /** The tree has the shape, axes and panes of the state, and its ratios pulled into range: those below it
      are the least one, those above it the greatest. */
  predicate Agrees(tree: SplitTree, state: SplitTreeState) {
    match state
    case LeafState(pane) => tree == Leaf(pane)
    case SplitState(axis, ratio, first, second) =>
      && tree.Split? && tree.axis == axis && Agrees(tree.first, first) && Agrees(tree.second, second)
      && (ratio < 0.1 ==> tree.ratio == 0.1) && (ratio > 0.9 ==> tree.ratio == 0.9)
      && (0.1 <= ratio <= 0.9 ==> tree.ratio == ratio)
  }

  /** The clamped tree is the only one that agrees with the state. */
  lemma {:induction false} ClampedAgrees(state: SplitTreeState, tree: SplitTree)
    ensures tree == Clamped(state) <==> Agrees(tree, state)
    decreases state
  {
    match state
    case LeafState(_) =>
    case SplitState(_, _, first, second) =>
      if tree.Split? {
        ClampedAgrees(first, tree.first);
        ClampedAgrees(second, tree.second);
      }
  }

  function Unclamped(state: SplitTreeState): SplitTree {
    match state
    case LeafState(pane) => Leaf(pane)
    case SplitState(axis, ratio, first, second) => Split(axis, ratio, Unclamped(first), Unclamped(second))
  }

  lemma {:induction false} SnapshotKeepsPanes(tree: SplitTree)
    ensures Leaves(Snapshot(tree)) == PanesOf(tree)
    ensures Clamped(Snapshot(tree)) == tree <==> InRange(tree)
  {
    match tree
    case Leaf(_) =>
    case Split(_, _, first, second) =>
      SnapshotKeepsPanes(first);
      SnapshotKeepsPanes(second);
  }

  /** Saving and restoring a tree gives it back exactly when its ratios are in range and the
      pane map holds its panes, each once. */
  method SaveAndRestore(tree: SplitTree, panes: seq<nat>) returns (result: Result<SplitTree, RestoreError>)
    requires Ascending(panes)
    ensures result == Ok(tree)
       <==> InRange(tree) && Distinct(PanesOf(tree)) && forall p :: p in PanesOf(tree) <==> p in panes
  {
    SnapshotKeepsPanes(tree);
    result := RestoreTree(Snapshot(tree), panes);
  }
}
