/**
 Which lists of leaf indices the multi-proof generator can serve: an exact condition on the
 list itself, which a caller can check before asking.

 The queue always holds slots of two adjacent depths, the deeper ones in front. Read with
 the deeper ones moved behind the others, one turn replaces a slot, or two neighbouring
 siblings, by their parent, in place.
 */
module MerkleServable {
  import opened Collections
  import opened MerkleTree
  import opened MerkleCompleteness
  import opened MerkleSoundness

  // ----- the condition -----

  ghost predicate DepthsFall(queue: seq<nat>) {
    forall i, j :: 0 <= i < j < |queue| ==> Depth(queue[i]) >= Depth(queue[j])
  }

  // How many entries at the front lie at a depth.
  function Leading(queue: seq<nat>, depth: nat): (n: nat)
    ensures n <= |queue| && forall i :: 0 <= i < n ==> Depth(queue[i]) == depth
    ensures n < |queue| ==> Depth(queue[n]) != depth
  {
    if queue == [] || Depth(queue[0]) != depth then 0 else 1 + Leading(queue[1..], depth)
  }

  // The deepest entries of a list with falling depths, moved behind the others.
  function ShallowFirst(queue: seq<nat>): (r: seq<nat>)
    ensures |r| == |queue|
  {
    if queue == [] then []
    else
      var n := Leading(queue, Depth(queue[0]));
      queue[n..] + queue[..n]
  }

  ghost predicate Fills(r: seq<nat>, g: nat, i: nat, j: nat, k: nat)
    requires i < j < k < |r|
  {
    Below(g, r[i]) && Below(g, r[k]) ==> Below(g, r[j])
  }

  // The entries that lie below any one slot are consecutive.
  ghost predicate Contiguous(r: seq<nat>) {
    forall g: nat, i: nat, j: nat, k: nat {:trigger Fills(r, g, i, j, k)} :: i < j < k < |r| ==> Fills(r, g, i, j, k)
  }

  // No index is repeated, depths do not increase, and with the deepest indices moved behind
  // the others the indices below every slot are consecutive.
  ghost predicate Servable(indices: seq<nat>) {
    NoRepeats(indices) && DepthsFall(indices) && Contiguous(ShallowFirst(indices))
  }

  // ----- depths -----

  lemma {:induction false} DepthsInOrder(i: nat, j: nat)
    requires i <= j
    ensures Depth(i) <= Depth(j)
  {
    if i == 0 {
    } else {
      DepthsInOrder(Parent(i), Parent(j));
    }
  }

  lemma {:induction false} DepthBelow(g: nat, x: nat)
    requires Below(g, x)
    ensures Depth(g) <= Depth(x) && (Depth(g) == Depth(x) ==> g == x)
    ensures Depth(x) == Depth(g) + 1 ==> x > 0 && Parent(x) == g
  {
    if x == g {
    } else {
      DepthBelow(g, Parent(x));
    }
  }

  lemma FamilyDepth(a: nat)
    requires a > 0
    ensures Depth(Sibling(a)) == Depth(a) == Depth(Parent(a)) + 1
  {
    Family(a);
  }

  lemma {:induction false} BelowIsTransitive(f: nat, g: nat, x: nat)
    requires Below(f, g) && Below(g, x)
    ensures Below(f, x)
  {
    if x == g {
    } else {
      BelowIsTransitive(f, g, Parent(x));
      BelowIsNotAbove(g, Parent(x));
      BelowIsNotAbove(f, g);
    }
  }

  lemma {:induction false} BelowIsNotAbove(g: nat, x: nat)
    requires Below(g, x)
    ensures g <= x
  {
  }

  // Below the parent of `a`: the parent itself, below `a`, or below the sibling of `a`.
  lemma {:induction false} BelowFamily(a: nat, x: nat)
    requires a > 0 && Below(Parent(a), x)
    ensures x == Parent(a) || Below(a, x) || Below(Sibling(a), x)
  {
    Family(a);
    if x == Parent(a) {
    } else {
      BelowFamily(a, Parent(x));
      assert Parent(x) == Parent(a) ==> x == a || x == Sibling(a);
      if Below(a, Parent(x)) {
        BelowIsNotAbove(a, Parent(x));
      } else if Below(Sibling(a), Parent(x)) {
        BelowIsNotAbove(Sibling(a), Parent(x));
      }
    }
  }

  // ----- replacing a slot by its parent, in place -----

  // No entry lies below another one, and what lies below any slot is consecutive.
  ghost predicate Good(r: seq<nat>) {
    Antichain(r) && Contiguous(r)
  }

  // Wherever `a` is compared with the slots above it, its parent compares the same way.
  lemma AboveParent(a: nat, g: nat)
    requires a > 0
    ensures g != a ==> (Below(g, a) <==> Below(g, Parent(a)))
    ensures Below(g, Parent(a)) ==> g != a
  {
    Family(a);
    if Below(g, Parent(a)) {
      BelowIsNotAbove(g, Parent(a));
    }
  }

  lemma ChildIsApart(r: seq<nat>, n: nat, a: nat)
    requires n < |r| && a > 0 && r[n] == Parent(a) && Antichain(r)
    ensures Antichain(r[n := a])
  {
    var s := r[n := a];
    forall i, j | 0 <= i < |s| && 0 <= j < |s| && i != j
      ensures !Below(s[i], s[j])
    {
      assert !Below(r[i], r[j]) && !Below(r[j], r[i]);
      if i == n {
        ChildStaysApart(r[n], a, r[j]);
      } else if j == n {
        ChildStaysApart(r[n], a, r[i]);
      }
    }
  }

  // No slot heads a run that contains `a` and another entry, unless it heads the parent's.
  lemma ChildInPlace(r: seq<nat>, n: nat, a: nat)
    requires n < |r| && a > 0 && r[n] == Parent(a) && Good(r)
    ensures Good(r[n := a])
  {
    var s := r[n := a];
    ChildIsApart(r, n, a);
    forall g: nat, i: nat, j: nat, k: nat | i < j < k < |s|
      ensures Fills(s, g, i, j, k)
    {
      assert Fills(r, g, i, j, k);
      AboveParent(a, g);
      assert !Below(s[i], s[k]) && !Below(s[k], s[i]);
    }
  }

  lemma ParentInPlace(s: seq<nat>, n: nat, a: nat)
    requires n < |s| && a > 0 && s[n] == a && Good(s)
    requires forall i :: 0 <= i < |s| && i != n ==> !Below(Parent(a), s[i])
    ensures Good(s[n := Parent(a)])
  {
    var r := s[n := Parent(a)];
    forall i, j | 0 <= i < |r| && 0 <= j < |r| && i != j
      ensures !Below(r[i], r[j])
    {
      assert !Below(s[i], s[j]);
      AboveParent(a, r[i]);
    }
    forall g: nat, i: nat, j: nat, k: nat | i < j < k < |r|
      ensures Fills(r, g, i, j, k)
    {
      assert Fills(s, g, i, j, k);
      AboveParent(a, g);
      assert !Below(s[j], s[i]);
    }
  }

  // ----- a sibling beside its sibling -----

  // Position of entry `i` when entry `n + 1` is left out.
  function Skip(n: nat, i: nat): nat { if i <= n then i else i + 1 }

  // Without the sibling right behind it.
  lemma DropSibling(s: seq<nat>, n: nat)
    requires n + 1 < |s| && Good(s)
    ensures Good(s[..n + 1] + s[n + 2..])
  {
    var r := s[..n + 1] + s[n + 2..];
    assert forall i :: 0 <= i < |r| ==> r[i] == s[Skip(n, i)];
    forall i, j | 0 <= i < |r| && 0 <= j < |r| && i != j
      ensures !Below(r[i], r[j])
    {
      assert !Below(s[Skip(n, i)], s[Skip(n, j)]);
    }
    forall g: nat, i: nat, j: nat, k: nat | i < j < k < |r|
      ensures Fills(r, g, i, j, k)
    {
      assert Fills(s, g, Skip(n, i), Skip(n, j), Skip(n, k));
    }
  }

  // Position in the shorter list of entry `i` of the longer one; the two siblings share one.
  function Merged(n: nat, i: nat): nat { if i <= n then i else i - 1 }

  lemma SiblingIsApart(r: seq<nat>, n: nat, a: nat)
    requires n < |r| && a > 0 && r[n] == Parent(a) && Antichain(r)
    ensures Antichain(r[..n] + [a, Sibling(a)] + r[n + 1..])
  {
    var s := r[..n] + [a, Sibling(a)] + r[n + 1..];
    Family(a);
    SiblingsAreApart(a);
    ChildIsApart(r, n, a);
    ChildIsApart(r, n, Sibling(a));
    var ra, rb := r[n := a], r[n := Sibling(a)];
    forall i, j | 0 <= i < |s| && 0 <= j < |s| && i != j
      ensures !Below(s[i], s[j])
    {
      if i != n + 1 && j != n + 1 {
        assert s[i] == ra[Merged(n, i)] && s[j] == ra[Merged(n, j)];
      } else if i != n && j != n {
        assert s[i] == rb[Merged(n, i)] && s[j] == rb[Merged(n, j)];
      }
    }
  }

  // Slots above the two siblings are above their parent: a run seen in the longer list is seen
  // in the shorter one.
  lemma RunWithSiblings(r: seq<nat>, n: nat, a: nat, g: nat, i: nat, j: nat, k: nat)
    requires n < |r| && a > 0 && r[n] == Parent(a) && Contiguous(r) && g != a && g != Sibling(a)
    requires i < j < k <= |r|
    ensures Fills(r[..n] + [a, Sibling(a)] + r[n + 1..], g, i, j, k)
  {
    var s := r[..n] + [a, Sibling(a)] + r[n + 1..];
    Family(a);
    AboveParent(a, g);
    AboveParent(Sibling(a), g);
    forall x | x == i || x == j || x == k
      ensures Below(g, s[x]) <==> Below(g, r[Merged(n, x)])
    {
    }
    if Merged(n, i) < Merged(n, j) < Merged(n, k) {
      assert Fills(r, g, Merged(n, i), Merged(n, j), Merged(n, k));
    }
  }

  // One of the siblings itself heads no run.
  lemma NoRunBelowEntry(s: seq<nat>, n: nat, i: nat, j: nat, k: nat)
    requires n < |s| && Antichain(s) && i < j < k < |s|
    ensures Fills(s, s[n], i, j, k)
  {
    assert i != n ==> !Below(s[n], s[i]);
    assert k != n ==> !Below(s[n], s[k]);
  }

  lemma SiblingsInPlace(r: seq<nat>, n: nat, a: nat)
    requires n < |r| && a > 0 && r[n] == Parent(a) && Good(r)
    ensures Good(r[..n] + [a, Sibling(a)] + r[n + 1..])
  {
    var s := r[..n] + [a, Sibling(a)] + r[n + 1..];
    SiblingIsApart(r, n, a);
    forall g: nat, i: nat, j: nat, k: nat | i < j < k < |s|
      ensures Fills(s, g, i, j, k)
    {
      if g == a {
        NoRunBelowEntry(s, n, i, j, k);
      } else if g == Sibling(a) {
        NoRunBelowEntry(s, n + 1, i, j, k);
      } else {
        RunWithSiblings(r, n, a, g, i, j, k);
      }
    }
  }

  lemma ParentOfSiblingsInPlace(s: seq<nat>, n: nat, a: nat)
    requires n + 1 < |s| && a > 0 && s[n] == a && s[n + 1] == Sibling(a) && Good(s)
    ensures Good(s[..n] + [Parent(a)] + s[n + 2..])
  {
    DropSibling(s, n);
    var r := s[..n + 1] + s[n + 2..];
    assert forall i :: 0 <= i < |r| ==> r[i] == s[Skip(n, i)];
    AboveParent(a, Parent(a));
    forall i | 0 <= i < |r| && i != n
      ensures !Below(Parent(a), r[i])
    {
      assert !Below(s[n], s[Skip(n, i)]) && !Below(s[n + 1], s[Skip(n, i)]) && !Below(s[Skip(n, i)], s[n]);
      if Below(Parent(a), r[i]) {
        BelowFamily(a, r[i]);
      }
    }
    ParentInPlace(r, n, a);
    assert r[n := Parent(a)] == s[..n] + [Parent(a)] + s[n + 2..];
  }

  // ----- one turn of the queue -----

  // The entries lie at two adjacent depths at most, the deeper ones in front.
  ghost predicate TwoLevels(queue: seq<nat>) {
    DepthsFall(queue) && (queue != [] ==> Depth(queue[0]) <= Depth(queue[|queue| - 1]) + 1)
  }

  lemma TwoLevelsForward(queue: seq<nat>)
    requires !Stopped(queue) && TwoLevels(queue)
    ensures TwoLevels(Advance(queue))
  {
    var a, next, m := queue[0], Advance(queue), if Merges(queue) then 2 else 1;
    FamilyDepth(a);
    forall i | 0 <= i < |queue|
      ensures Depth(a) >= Depth(queue[i]) >= Depth(Parent(a))
    {
    }
    assert forall i :: 0 <= i < |next| - 1 ==> next[i] == queue[m + i];
  }

  lemma TwoLevelsBackward(queue: seq<nat>)
    requires !Stopped(queue) && TwoLevels(Advance(queue))
    ensures TwoLevels(queue)
  {
    var a, next, m := queue[0], Advance(queue), if Merges(queue) then 2 else 1;
    FamilyDepth(a);
    forall i | m <= i < |queue|
      ensures queue[i] == next[i - m] && Depth(a) >= Depth(queue[i]) >= Depth(Parent(a))
    {
      assert Depth(next[0]) >= Depth(next[i - m]) >= Depth(next[|next| - 1]);
    }
  }

  lemma TwoLevelsStep(queue: seq<nat>)
    requires !Stopped(queue)
    ensures TwoLevels(queue) <==> TwoLevels(Advance(queue))
  {
    if TwoLevels(queue) {
      TwoLevelsForward(queue);
    }
    if TwoLevels(Advance(queue)) {
      TwoLevelsBackward(queue);
    }
  }

  lemma {:induction false} LeadingIs(queue: seq<nat>, depth: nat, n: nat)
    requires n <= |queue| && forall i :: 0 <= i < n ==> Depth(queue[i]) == depth
    requires n < |queue| ==> Depth(queue[n]) != depth
    ensures Leading(queue, depth) == n
  {
    if n == 0 {
    } else {
      LeadingIs(queue[1..], depth, n - 1);
    }
  }

  ghost predicate AllAtDepth(queue: seq<nat>, depth: nat) {
    forall i :: 0 <= i < |queue| ==> Depth(queue[i]) == depth
  }

  lemma ShallowFirstOf(deep: seq<nat>, shallow: seq<nat>, depth: nat)
    requires deep != [] && AllAtDepth(deep, depth) && (shallow != [] ==> Depth(shallow[0]) != depth)
    ensures ShallowFirst(deep + shallow) == shallow + deep
  {
    var queue := deep + shallow;
    assert shallow != [] ==> queue[|deep|] == shallow[0];
    LeadingIs(queue, depth, |deep|);
    assert queue[0] == deep[0];
    assert queue[|deep|..] == shallow && queue[..|deep|] == deep;
  }

  // A queue of two levels taken apart.
  lemma Levels(queue: seq<nat>) returns (deep: seq<nat>, shallow: seq<nat>)
    requires !Stopped(queue) && TwoLevels(queue)
    ensures queue == deep + shallow && deep != [] && AllAtDepth(deep, Depth(queue[0]))
    ensures AllAtDepth(shallow, Depth(queue[0]) - 1)
    ensures ShallowFirst(queue) == shallow + deep
    ensures Merges(queue) ==> |deep| > 1 && deep[1] == Sibling(queue[0])
  {
    var d := Depth(queue[0]);
    var k := Leading(queue, d);
    FamilyDepth(queue[0]);
    deep, shallow := queue[..k], queue[k..];
    forall i | k <= i < |queue|
      ensures Depth(queue[i]) == d - 1
    {
      assert Depth(queue[k]) >= Depth(queue[i]) >= Depth(queue[|queue| - 1]);
      assert Depth(queue[k]) <= d;
    }
  }

  // One turn, on a queue taken apart: the front, and its sibling when the two are merged,
  // leave and their parent joins the shallower slots.
  lemma TurnOnLevels(deep: seq<nat>, shallow: seq<nat>, m: nat, p: nat, depth: nat)
    requires 0 < m <= |deep| && depth > 0 && AllAtDepth(deep, depth) && AllAtDepth(shallow, depth - 1)
    requires Depth(p) == depth - 1
    ensures ShallowFirst((deep + shallow)[m..] + [p]) == shallow + [p] + deep[m..]
  {
    assert (deep + shallow)[m..] + [p] == deep[m..] + (shallow + [p]);
    if m < |deep| {
      ShallowFirstOf(deep[m..], shallow + [p], depth);
    } else {
      ShallowFirstOf(shallow + [p], [], depth - 1);
      assert deep[m..] + (shallow + [p]) == (shallow + [p]) + [];
      assert shallow + [p] + deep[m..] == [] + (shallow + [p]);
    }
  }

  lemma SecondIsSibling(a: nat, x: nat)
    requires a > 0 && Depth(x) == Depth(a) && Below(Parent(a), x)
    ensures x == a || x == Sibling(a)
  {
    FamilyDepth(a);
    Family(a);
    DepthBelow(Parent(a), x);
  }

  // Only the sibling right behind `a` can share its parent, among good neighbours of the
  // same two levels.
  lemma AloneBelowParent(shallow: seq<nat>, deep: seq<nat>, depth: nat)
    requires deep != [] && depth > 0 && deep[0] > 0 && AllAtDepth(deep, depth) && AllAtDepth(shallow, depth - 1)
    requires Good(shallow + deep) && (|deep| > 1 ==> deep[1] != Sibling(deep[0]))
    ensures forall i :: 0 <= i < |shallow + deep| && i != |shallow| ==> !Below(Parent(deep[0]), (shallow + deep)[i])
  {
    var r, n, a := shallow + deep, |shallow|, deep[0];
    FamilyDepth(a);
    forall i | 0 <= i < |r| && i != n
      ensures !Below(Parent(a), r[i])
    {
      if Below(Parent(a), r[i]) {
        AboveParent(a, Parent(a));
        assert !Below(r[n], r[i]) && !Below(r[i], r[n]);
        BelowFamily(a, r[i]);
        DepthBelow(Sibling(a), r[i]);
        assert i > n + 1;
        assert Fills(r, Parent(a), n, n + 1, i);
        assert Below(Parent(a), r[n + 1]);
        assert !Below(r[n], r[n + 1]) && !Below(r[n + 1], r[n]);
        SecondIsSibling(a, r[n + 1]);
      }
    }
  }

  lemma MergedTurnIff(shallow: seq<nat>, deep: seq<nat>)
    requires |deep| > 1 && deep[0] > 0 && deep[1] == Sibling(deep[0])
    ensures Good(shallow + deep) <==> Good(shallow + [Parent(deep[0])] + deep[2..])
  {
    var s, r, n := shallow + deep, shallow + [Parent(deep[0])] + deep[2..], |shallow|;
    if Good(s) {
      ParentOfSiblingsInPlace(s, n, deep[0]);
      assert s[..n] + [Parent(deep[0])] + s[n + 2..] == r;
    }
    if Good(r) {
      SiblingsInPlace(r, n, deep[0]);
      assert r[..n] + [deep[0], deep[1]] + r[n + 1..] == s;
    }
  }

  lemma SingleTurnIff(shallow: seq<nat>, deep: seq<nat>, depth: nat)
    requires deep != [] && depth > 0 && deep[0] > 0 && AllAtDepth(deep, depth) && AllAtDepth(shallow, depth - 1)
    requires |deep| > 1 ==> deep[1] != Sibling(deep[0])
    ensures Good(shallow + deep) <==> Good(shallow + [Parent(deep[0])] + deep[1..])
  {
    var s, r, n := shallow + deep, shallow + [Parent(deep[0])] + deep[1..], |shallow|;
    assert s[n := Parent(deep[0])] == r && r[n := deep[0]] == s;
    if Good(s) {
      AloneBelowParent(shallow, deep, depth);
      ParentInPlace(s, n, deep[0]);
    }
    if Good(r) {
      ChildInPlace(r, n, deep[0]);
    }
  }

  // ----- the whole run -----

  ghost predicate OnCourse(queue: seq<nat>) {
    queue != [] && TwoLevels(queue) && Good(ShallowFirst(queue))
  }

  lemma TurnKeepsCourse(queue: seq<nat>)
    requires !Stopped(queue)
    ensures OnCourse(queue) <==> OnCourse(Advance(queue))
  {
    TwoLevelsStep(queue);
    if TwoLevels(queue) {
      var a := queue[0];
      var deep, shallow := Levels(queue);
      var m := if Merges(queue) then 2 else 1;
      FamilyDepth(a);
      assert deep[0] == a;
      TurnOnLevels(deep, shallow, m, Parent(a), Depth(a));
      if Merges(queue) {
        MergedTurnIff(shallow, deep);
      } else {
        assert |deep| > 1 ==> queue[1] == deep[1];
        SingleTurnIff(shallow, deep, Depth(a));
      }
    }
  }

  lemma {:induction false} DrainsToRootIff(queue: seq<nat>)
    ensures Drain(queue) == [0] <==> OnCourse(queue)
    decreases Sum(queue)
  {
    if queue == [] {
    } else if queue[0] == 0 {
      StoppedCourse(queue);
    } else {
      TurnKeepsCourse(queue);
      DrainsToRootIff(Advance(queue));
    }
  }

  lemma StoppedCourse(queue: seq<nat>)
    requires queue != [] && queue[0] == 0
    ensures queue == [0] <==> OnCourse(queue)
  {
    if queue == [0] {
      assert Leading(queue, 0) == 1;
      assert ShallowFirst(queue) == [0];
    }
    if TwoLevels(queue) {
      assert AllAtDepth(queue, 0);
      LeadingIs(queue, 0, |queue|);
      assert ShallowFirst(queue) == queue;
      OneRootOnly(queue);
    }
  }

  lemma OneRootOnly(queue: seq<nat>)
    requires queue != [] && AllAtDepth(queue, 0)
    ensures queue == [0] || !Antichain(queue)
  {
    if |queue| > 1 {
      assert Depth(queue[0]) == 0 && Depth(queue[1]) == 0;
      assert Below(queue[0], queue[1]);
    }
  }

  // ----- leaves -----

  lemma {:induction false} BelowReachesChild(g: nat, x: nat)
    requires Below(g, x) && x != g
    ensures x >= LeftChild(g)
  {
    BelowIsNotAbove(g, Parent(x));
  }

  lemma LeavesAreOnTwoLevels(treeLen: nat, i: nat, j: nat)
    requires IsLeafIndex(treeLen, i) && IsLeafIndex(treeLen, j)
    ensures Depth(i) <= Depth(j) + 1
    ensures Below(i, j) ==> i == j
  {
    if i > 0 {
      DepthsInOrder(Parent(i), j);
    }
    if Below(i, j) && i != j {
      BelowReachesChild(i, j);
    }
  }

  lemma DistinctLeavesAreApart(treeLen: nat, indices: seq<nat>)
    requires AllLeafIndices(treeLen, indices)
    ensures NoRepeats(indices) <==> Antichain(ShallowFirst(indices))
  {
    var r := ShallowFirst(indices);
    forall i | 0 <= i < |r|
      ensures IsLeafIndex(treeLen, r[i])
    {
      assert r[i] in indices;
    }
    RotationKeepsDistinct(indices);
    forall i, j | 0 <= i < |r| && 0 <= j < |r|
      ensures Below(r[i], r[j]) <==> r[i] == r[j]
    {
      LeavesAreOnTwoLevels(treeLen, r[i], r[j]);
    }
  }

  lemma RotationKeepsDistinct(queue: seq<nat>)
    ensures NoRepeats(queue) <==> NoRepeats(ShallowFirst(queue))
  {
    if queue != [] {
      var n := Leading(queue, Depth(queue[0]));
      RotatedDistinct(queue[..n], queue[n..]);
      assert queue == queue[..n] + queue[n..];
    }
  }

  lemma RotatedDistinct(a: seq<nat>, b: seq<nat>)
    ensures NoRepeats(a + b) <==> NoRepeats(b + a)
  {
    var p, q := a + b, b + a;
    if NoRepeats(p) {
      forall i, j | 0 <= i < j < |q|
        ensures q[i] != q[j]
      {
        assert q[i] == p[if i < |b| then i + |a| else i - |b|];
        assert q[j] == p[if j < |b| then j + |a| else j - |b|];
      }
    }
    if NoRepeats(q) {
      forall i, j | 0 <= i < j < |p|
        ensures p[i] != p[j]
      {
        assert p[i] == q[if i < |a| then i + |b| else i - |a|];
        assert p[j] == q[if j < |a| then j + |b| else j - |a|];
      }
    }
  }

  lemma LeavesOnCourse(treeLen: nat, indices: seq<nat>)
    requires indices != [] && AllLeafIndices(treeLen, indices)
    ensures OnCourse(indices) <==> Servable(indices)
  {
    LeavesAreOnTwoLevels(treeLen, indices[0], indices[|indices| - 1]);
    DistinctLeavesAreApart(treeLen, indices);
  }

  /** The exact condition, on the list alone, for every list of leaf indices in any order and
      with any repetitions: the generated proof verifies if the list is empty or servable, and
      is rejected otherwise. It never crashes the verifier. */
  lemma GeneratedVerifiesIffServable(h: PairHash, t: seq<Hash>, indices: seq<nat>)
    requires WellFormed(h, t) && AllLeafIndices(|t|, indices)
    ensures InRange(indices, |t|) && MultiProofFor(t, indices).Some?
    ensures VerifyMulti(h, t[0], Values(t, indices), MultiProofFor(t, indices).value)
         == if indices == [] || Servable(indices) then Accepted else Rejected
  {
    GeneratedVerifiesIffCountsMatch(h, t, indices);
    if indices == [] {
    } else {
      EmittedCounts(t, indices);
      DrainsToRootIff(indices);
      LeavesOnCourse(|t|, indices);
      assert |Drain(indices)| == 1 <==> Drain(indices) == [0];
    }
  }

  /** A list with a repeated index is never served. */
  lemma ServedIndicesAreDistinct(h: PairHash, t: seq<Hash>, indices: seq<nat>)
    requires WellFormed(h, t) && AllLeafIndices(|t|, indices) && InRange(indices, |t|)
    requires VerifyMulti(h, t[0], Values(t, indices), MultiProofFor(t, indices).value) == Accepted
    ensures NoRepeats(indices)
  {
    GeneratedVerifiesIffServable(h, t, indices);
  }

  // Strictly descending lists are servable, so completeness for them is a special case.
  lemma DescendingIsServable(treeLen: nat, indices: seq<nat>)
    requires AllLeafIndices(treeLen, indices) && StrictlyDescending(indices) && indices != []
    ensures Servable(indices)
  {
    DescendingLeavesAreOrderly(treeLen, indices);
    OrderlyDrainsToRoot(indices);
    DrainsToRootIff(indices);
    LeavesOnCourse(treeLen, indices);
  }
}
