/** What the tree builder guarantees: one tree per root in birth order, the shape of
    every tree (levels, patrilineal children, leaf daughters, own-reference spouses, no
    id repeated along a branch), the depth bound that makes cycles harmless, and what
    ends up in `processedAsSpouse`. */
module FamilyTreeProperties {
  import opened Lists
  import opened Members
  import opened BirthOrder
  import opened FamilyTree

  // ---------------------------------------------------------------------------
  // Specification predicates

  /** The spouse ids a built node adds to `processedAsSpouse`: its own spouse's and those
      of its sons' subtrees. Daughters are leaves built without `buildTree`, so their
      spouses are never added. */
  function Marked(n: TreeNode): set<string>
    decreases n, 1
  {
    (if n.spouse.Some? then {n.spouse.value.id} else {}) + MarkedBySons(n.children)
  }

  function MarkedBySons(ns: seq<TreeNode>): set<string>
    decreases ns, 0
  {
    if ns == [] then {}
    else (if ns[0].member.gender == Male then Marked(ns[0]) else {}) + MarkedBySons(ns[1..])
  }

  /** The spouse ids marked while building a list of root trees. */
  function MarkedByTrees(ts: seq<TreeNode>): set<string> {
    if ts == [] then {} else Marked(ts[0]) + MarkedByTrees(ts[1..])
  }

  /** A child is kept unless it is a son whose id the branch has already visited. */
  function Expanded(visited: set<string>): Member -> bool {
    (k: Member) => k.gender == Female || k.id !in visited
  }

  /** The shape of a tree grown from a man at `level` below the ids `ancestors`:
      levels count down from the root; every node shows its member with the spouse of
      the member's own reference; daughters have no children; a man's id is never one
      of his ancestors'; and each child's father reference is its parent's id. */
  predicate Shaped(ms: seq<Member>, n: TreeNode, level: nat, ancestors: set<string>)
    decreases n
  {
    && n.level == level
    && n.id == n.member.id
    && n.member in ms
    && n.spouse == OwnSpouse(ms, n.member)
    && (n.member.gender == Female ==> n.children == [])
    && (n.member.gender == Male ==> n.id !in ancestors)
    && forall c :: c in n.children ==>
         c.member.father == Some(n.id) && Shaped(ms, c, level + 1, ancestors + {n.id})
  }

  /** The children of a shaped node show members of the list. */
  lemma ShapedChildrenInList(ms: seq<Member>, n: TreeNode, level: nat, ancestors: set<string>)
    requires Shaped(ms, n, level, ancestors)
    ensures forall c :: c in n.children ==> c.member in ms
  {
    forall c | c in n.children ensures c.member in ms {
      assert Shaped(ms, c, level + 1, ancestors + {n.id});
    }
  }

  /** The tree has at most `b` levels. */
  predicate LevelsWithin(n: TreeNode, b: int)
    decreases n
  {
    b >= 1 && forall c :: c in n.children ==> LevelsWithin(c, b - 1)
  }

  function MaleIds(ms: seq<Member>): set<string> {
    set m | m in ms && m.gender == Male :: m.id
  }

  // ---------------------------------------------------------------------------
  // The spouse set is an output only

  /** The nodes `buildTree` returns do not depend on `processedAsSpouse`: the set is
      written during the build and never read by it. */
  lemma {:induction false} TreeIgnoresSpouseSet(ms: seq<Member>, time: Timestamps, p: Member, level: nat,
                                               v: set<string>, p1: set<string>, p2: set<string>)
    requires p in ms
    ensures BuildTree(ms, time, p, level, v, p1).node == BuildTree(ms, time, p, level, v, p2).node
    decreases |IdsOf(ms) - v|, 0
  {
    if p.id !in v {
      var spouse := SpouseOf(ms, p);
      var m1 := if spouse.Some? then p1 + {spouse.value.id} else p1;
      var m2 := if spouse.Some? then p2 + {spouse.value.id} else p2;
      ShrinkUnvisited(IdsOf(ms), v, p.id);
      ChildrenIgnoreSpouseSet(ms, time, SortedChildren(ms, time, p, spouse), level + 1, v + {p.id}, m1, m2);
    }
  }

  lemma {:induction false} ChildrenIgnoreSpouseSet(ms: seq<Member>, time: Timestamps, kids: seq<Member>, level: nat,
                                                  v: set<string>, p1: set<string>, p2: set<string>)
    requires forall k :: k in kids ==> k in ms
    ensures BuildChildren(ms, time, kids, level, v, p1).nodes == BuildChildren(ms, time, kids, level, v, p2).nodes
    decreases |IdsOf(ms) - v|, |kids|
  {
    if kids != [] {
      if kids[0].gender == Male {
        var b1 := BuildTree(ms, time, kids[0], level, v, p1);
        var b2 := BuildTree(ms, time, kids[0], level, v, p2);
        TreeIgnoresSpouseSet(ms, time, kids[0], level, v, p1, p2);
        ChildrenIgnoreSpouseSet(ms, time, kids[1..], level, v, b1.processedAsSpouse, b2.processedAsSpouse);
      } else {
        ChildrenIgnoreSpouseSet(ms, time, kids[1..], level, v, p1, p2);
      }
    }
  }

  /** `buildTree` adds exactly the spouses of the tree it returns to `processedAsSpouse`. */
  lemma {:induction false} TreeMarksItsSpouses(ms: seq<Member>, time: Timestamps, p: Member, level: nat,
                                              v: set<string>, processed: set<string>)
    requires p in ms && p.id !in v
    ensures BuildTree(ms, time, p, level, v, processed).processedAsSpouse ==
            processed + Marked(BuildTree(ms, time, p, level, v, processed).node.value)
    decreases |IdsOf(ms) - v|, 0
  {
    var spouse := SpouseOf(ms, p);
    var marked := if spouse.Some? then processed + {spouse.value.id} else processed;
    var kids := SortedChildren(ms, time, p, spouse);
    var built := BuildChildren(ms, time, kids, level + 1, v + {p.id}, marked);
    var b := BuildTree(ms, time, p, level, v, processed);
    BuildTreeStep(ms, time, p, level, v, processed);
    ShrinkUnvisited(IdsOf(ms), v, p.id);
    ChildrenMarkTheirSpouses(ms, time, kids, level + 1, v + {p.id}, marked);
    MarksStep(b.node.value, processed, marked, built.processedAsSpouse);
  }

  /** A node marks its own spouse on top of what its children mark. */
  lemma MarksStep(n: TreeNode, processed: set<string>, marked: set<string>, after: set<string>)
    requires marked == if n.spouse.Some? then processed + {n.spouse.value.id} else processed
    requires after == marked + MarkedBySons(n.children)
    ensures after == processed + Marked(n)
  {
  }

  /** One unfolding of `buildTree` for an unvisited person. */
  lemma BuildTreeStep(ms: seq<Member>, time: Timestamps, p: Member, level: nat, v: set<string>, processed: set<string>)
    requires p in ms && p.id !in v
    ensures var spouse := SpouseOf(ms, p);
            var marked := if spouse.Some? then processed + {spouse.value.id} else processed;
            var built := BuildChildren(ms, time, SortedChildren(ms, time, p, spouse), level + 1, v + {p.id}, marked);
            var b := BuildTree(ms, time, p, level, v, processed);
            && b.node.value.spouse == spouse
            && b.node.value.children == built.nodes
            && b.processedAsSpouse == built.processedAsSpouse
  {
  }

  lemma {:induction false} ChildrenMarkTheirSpouses(ms: seq<Member>, time: Timestamps, kids: seq<Member>, level: nat,
                                                   v: set<string>, processed: set<string>)
    requires forall k :: k in kids ==> k in ms
    ensures BuildChildren(ms, time, kids, level, v, processed).processedAsSpouse ==
            processed + MarkedBySons(BuildChildren(ms, time, kids, level, v, processed).nodes)
    decreases |IdsOf(ms) - v|, |kids|
  {
    if kids != [] {
      var r := BuildChildren(ms, time, kids, level, v, processed);
      if kids[0].gender == Male {
        var b := BuildTree(ms, time, kids[0], level, v, processed);
        var rest := BuildChildren(ms, time, kids[1..], level, v, b.processedAsSpouse);
        ChildrenMarkTheirSpouses(ms, time, kids[1..], level, v, b.processedAsSpouse);
        if b.node.Some? {
          TreeMarksItsSpouses(ms, time, kids[0], level, v, processed);
          assert r.nodes == [b.node.value] + rest.nodes;
          assert r.nodes[1..] == rest.nodes;
        } else {
          assert r.nodes == rest.nodes;
        }
      } else {
        var rest := BuildChildren(ms, time, kids[1..], level, v, processed);
        ChildrenMarkTheirSpouses(ms, time, kids[1..], level, v, processed);
        assert r.nodes[1..] == rest.nodes;
      }
    }
  }

  // ---------------------------------------------------------------------------
  // Children

  lemma MembersOfConcat(a: seq<TreeNode>, b: seq<TreeNode>)
    ensures MembersOf(a + b) == MembersOf(a) + MembersOf(b)
  {
  }

  /** The child nodes show exactly the children that are daughters or unvisited sons,
      in the order of the children list. */
  lemma {:induction false} ChildrenMembers(ms: seq<Member>, time: Timestamps, kids: seq<Member>, level: nat,
                                          v: set<string>, processed: set<string>)
    requires forall k :: k in kids ==> k in ms
    ensures MembersOf(BuildChildren(ms, time, kids, level, v, processed).nodes) == Filter(kids, Expanded(v))
  {
    if kids != [] {
      var k := kids[0];
      if k.gender == Male {
        var b := BuildTree(ms, time, k, level, v, processed);
        var head := if b.node.Some? then [b.node.value] else [];
        var rest := BuildChildren(ms, time, kids[1..], level, v, b.processedAsSpouse);
        ChildrenMembers(ms, time, kids[1..], level, v, b.processedAsSpouse);
        assert MembersOf(head) == if Expanded(v)(k) then [k] else [];
        MembersCons(head, rest.nodes, kids, Expanded(v));
      } else {
        var rest := BuildChildren(ms, time, kids[1..], level, v, processed);
        ChildrenMembers(ms, time, kids[1..], level, v, processed);
        assert MembersOf([Leaf(ms, k, level)]) == [k];
        MembersCons([Leaf(ms, k, level)], rest.nodes, kids, Expanded(v));
      }
    }
  }

  /** One step of `ChildrenMembers`: the nodes for the first child, then the rest. */
  lemma MembersCons(head: seq<TreeNode>, rest: seq<TreeNode>, kids: seq<Member>, keep: Member -> bool)
    requires kids != []
    requires MembersOf(head) == (if keep(kids[0]) then [kids[0]] else [])
    requires MembersOf(rest) == Filter(kids[1..], keep)
    ensures MembersOf(head + rest) == Filter(kids, keep)
  {
    MembersOfConcat(head, rest);
    FilterCons(kids[0], kids[1..], keep);
    assert [kids[0]] + kids[1..] == kids;
  }

  /** A man's node lists, in birth order, his deduplicated children through the father
      link, minus the sons already visited on this branch (FamilyTree.tsx:80,87-107). */
  lemma ManChildren(ms: seq<Member>, time: Timestamps, p: Member, level: nat, v: set<string>, processed: set<string>)
    requires p in ms && p.gender == Male && p.id !in v
    ensures var n := BuildTree(ms, time, p, level, v, processed).node.value;
            MembersOf(n.children) ==
              Filter(SortByBirth(DedupById(Filter(ms, FatheredBy(p.id))), time), Expanded(v + {p.id}))
  {
    var spouse := SpouseOf(ms, p);
    var marked := if spouse.Some? then processed + {spouse.value.id} else processed;
    ChildrenMembers(ms, time, SortedChildren(ms, time, p, spouse), level + 1, v + {p.id}, marked);
  }

  /** Filtering keeps the dated members ascending. */
  lemma {:induction false} FilterAscending(s: seq<Member>, time: Timestamps, keep: Member -> bool)
    requires Ascending(s, time)
    ensures Ascending(Filter(s, keep), time)
  {
    if s != [] {
      AscendingTail(s, time);
      FilterAscending(s[1..], time, keep);
      var f := Filter(s, keep);
      var tail := Filter(s[1..], keep);
      if keep(s[0]) {
        assert f == [s[0]] + tail;
        forall j | 0 < j < |f| && BirthTime(f[0], time).Some? && BirthTime(f[j], time).Some?
          ensures BirthTime(f[0], time).value <= BirthTime(f[j], time).value
        {
          assert f[j] == tail[j - 1];
          assert f[j] in s[1..];
          var k :| 0 <= k < |s[1..]| && s[1..][k] == f[j];
          assert s[k + 1] == f[j];
        }
        forall i, j | 0 < i < j < |f| ensures f[i] == tail[i - 1] && f[j] == tail[j - 1] {
        }
      } else {
        assert f == tail;
      }
    }
  }

  /** What a man's child list promises: every child node is a member whose father
      reference is his id; no two share an id; the dated ones are in ascending birth
      order; and every member fathered by him is shown unless his id was already
      visited on this branch. */
  lemma ManChildrenFacts(ms: seq<Member>, time: Timestamps, p: Member, level: nat, v: set<string>, processed: set<string>)
    requires p in ms && p.gender == Male && p.id !in v
    ensures var n := BuildTree(ms, time, p, level, v, processed).node.value;
            && (forall c :: c in MembersOf(n.children) ==> c in ms && c.father == Some(p.id))
            && Ascending(MembersOf(n.children), time)
            && (forall k :: k in ms && k.father == Some(p.id) ==>
                  k.id in v + {p.id} || exists c :: c in MembersOf(n.children) && c.id == k.id)
  {
    var n := BuildTree(ms, time, p, level, v, processed).node.value;
    var fathered := Filter(ms, FatheredBy(p.id));
    var sorted := SortByBirth(DedupById(fathered), time);
    ManChildren(ms, time, p, level, v, processed);
    SortSameMembers(DedupById(fathered), time);
    FilterAscending(sorted, time, Expanded(v + {p.id}));
    forall k | k in ms && k.father == Some(p.id) && k.id !in v + {p.id}
      ensures exists c :: c in MembersOf(n.children) && c.id == k.id
    {
      assert k in fathered;
      assert k.id in IdsOf(fathered);
      assert k.id in IdsOf(DedupById(fathered));
      var c :| c in DedupById(fathered) && c.id == k.id;
      assert c in sorted;
      assert Expanded(v + {p.id})(c);
    }
  }

  // ---------------------------------------------------------------------------
  // Shape of a tree grown from a man

  lemma {:induction false} ManTreeShaped(ms: seq<Member>, time: Timestamps, p: Member, level: nat,
                                        v: set<string>, processed: set<string>)
    requires p in ms && p.gender == Male && p.id !in v
    ensures Shaped(ms, BuildTree(ms, time, p, level, v, processed).node.value, level, v)
    decreases |IdsOf(ms) - v|, 0
  {
    var spouse := SpouseOf(ms, p);
    var marked := if spouse.Some? then processed + {spouse.value.id} else processed;
    var kids := SortedChildren(ms, time, p, spouse);
    ShrinkUnvisited(IdsOf(ms), v, p.id);
    ChildListShaped(ms, time, kids, level + 1, v + {p.id}, marked, p.id);
  }

  lemma {:induction false} ChildListShaped(ms: seq<Member>, time: Timestamps, kids: seq<Member>, level: nat,
                                          v: set<string>, processed: set<string>, fatherId: string)
    requires forall k :: k in kids ==> k in ms && k.father == Some(fatherId)
    ensures forall c :: c in BuildChildren(ms, time, kids, level, v, processed).nodes ==>
              c.member.father == Some(fatherId) && Shaped(ms, c, level, v)
    decreases |IdsOf(ms) - v|, |kids|
  {
    if kids != [] {
      var k := kids[0];
      if k.gender == Male {
        var b := BuildTree(ms, time, k, level, v, processed);
        if b.node.Some? {
          ManTreeShaped(ms, time, k, level, v, processed);
        }
        ChildListShaped(ms, time, kids[1..], level, v, b.processedAsSpouse, fatherId);
      } else {
        ChildListShaped(ms, time, kids[1..], level, v, processed, fatherId);
      }
    }
  }

  // ---------------------------------------------------------------------------
  // Depth bound

  /** With distinct ids, a tree grown from a man below the visited men `v` has at most
      as many levels as there are unvisited ids: every level but a daughter's leaf
      consumes one id of the branch's visited set. */
  lemma {:induction false} ManTreeDepth(ms: seq<Member>, time: Timestamps, p: Member, level: nat,
                                       v: set<string>, processed: set<string>)
    requires DistinctIds(ms) && v <= MaleIds(ms)
    requires p in ms && p.gender == Male && p.id !in v
    ensures LevelsWithin(BuildTree(ms, time, p, level, v, processed).node.value, |IdsOf(ms) - v|)
    decreases |IdsOf(ms) - v|, 0
  {
    var spouse := SpouseOf(ms, p);
    var marked := if spouse.Some? then processed + {spouse.value.id} else processed;
    var kids := SortedChildren(ms, time, p, spouse);
    ShrinkUnvisited(IdsOf(ms), v, p.id);
    assert p.id in IdsOf(ms) - v;
    ChildListDepth(ms, time, kids, level + 1, v + {p.id}, marked);
  }

  lemma {:induction false} ChildListDepth(ms: seq<Member>, time: Timestamps, kids: seq<Member>, level: nat,
                                         v: set<string>, processed: set<string>)
    requires DistinctIds(ms) && v <= MaleIds(ms)
    requires forall k :: k in kids ==> k in ms
    ensures forall c :: c in BuildChildren(ms, time, kids, level, v, processed).nodes ==>
              LevelsWithin(c, |IdsOf(ms) - v|)
    decreases |IdsOf(ms) - v|, |kids|
  {
    if kids != [] {
      var k := kids[0];
      if k.gender == Male {
        var b := BuildTree(ms, time, k, level, v, processed);
        if b.node.Some? {
          ManTreeDepth(ms, time, k, level, v, processed);
        }
        ChildListDepth(ms, time, kids[1..], level, v, b.processedAsSpouse);
        DepthStep(ms, time, kids, level, v, processed);
      } else {
        IdIdentifies(ms, k);
        ChildListDepth(ms, time, kids[1..], level, v, processed);
        DepthStep(ms, time, kids, level, v, processed);
      }
    }
  }

  /** One step of `ChildListDepth`: the bound for the first child's node and for the
      nodes of the rest gives the bound for all the nodes. */
  lemma DepthStep(ms: seq<Member>, time: Timestamps, kids: seq<Member>, level: nat,
                  v: set<string>, processed: set<string>)
    requires kids != [] && forall k :: k in kids ==> k in ms
    requires kids[0].gender == Female ==> kids[0].id in IdsOf(ms) - v
    requires var b := BuildTree(ms, time, kids[0], level, v, processed);
             && (kids[0].gender == Male && b.node.Some? ==> LevelsWithin(b.node.value, |IdsOf(ms) - v|))
             && forall c :: c in BuildChildren(ms, time, kids[1..], level, v,
                                               if kids[0].gender == Male then b.processedAsSpouse else processed).nodes ==>
                  LevelsWithin(c, |IdsOf(ms) - v|)
    ensures forall c :: c in BuildChildren(ms, time, kids, level, v, processed).nodes ==>
              LevelsWithin(c, |IdsOf(ms) - v|)
  {
    var k := kids[0];
    var bound := |IdsOf(ms) - v|;
    if k.gender == Male {
      var b := BuildTree(ms, time, k, level, v, processed);
      var head := if b.node.Some? then [b.node.value] else [];
      var rest := BuildChildren(ms, time, kids[1..], level, v, b.processedAsSpouse);
      assert BuildChildren(ms, time, kids, level, v, processed).nodes == head + rest.nodes;
      WithinConcat(head, rest.nodes, bound);
    } else {
      var rest := BuildChildren(ms, time, kids[1..], level, v, processed);
      assert BuildChildren(ms, time, kids, level, v, processed).nodes == [Leaf(ms, k, level)] + rest.nodes;
      WithinConcat([Leaf(ms, k, level)], rest.nodes, bound);
    }
  }

  /** With distinct ids, a member's id names only that member. */
  lemma IdIdentifies(ms: seq<Member>, k: Member)
    requires DistinctIds(ms) && k in ms
    ensures k.id in IdsOf(ms)
    ensures forall m :: m in ms && m.id == k.id ==> m == k
  {
    var j :| 0 <= j < |ms| && ms[j] == k;
    forall m | m in ms && m.id == k.id ensures m == k {
      var i :| 0 <= i < |ms| && ms[i] == m;
      assert i == j;
    }
  }

  lemma WithinConcat(a: seq<TreeNode>, b: seq<TreeNode>, bound: int)
    requires forall c :: c in a ==> LevelsWithin(c, bound)
    requires forall c :: c in b ==> LevelsWithin(c, bound)
    ensures forall c :: c in a + b ==> LevelsWithin(c, bound)
  {
  }

  // ---------------------------------------------------------------------------
  // The forest

  /** The tree `buildTree` gives a member on its own (nothing for a non-member). */
  function RootTree(ms: seq<Member>, time: Timestamps): Member -> Option<TreeNode> {
    (m: Member) => if m in ms then BuildTree(ms, time, m, 0, {}, {}).node else None
  }

  /** Every root gets the tree `buildTree` gives it on its own, in root order. */
  lemma {:induction false} BuildRootsOnePerRoot(ms: seq<Member>, time: Timestamps, roots: seq<Member>, processed: set<string>)
    requires forall m :: m in roots ==> m in ms
    ensures PairedBy(BuildRoots(ms, time, roots, processed).nodes, roots, RootTree(ms, time))
  {
    if roots != [] {
      var b := BuildTree(ms, time, roots[0], 0, {}, processed);
      var rest := BuildRoots(ms, time, roots[1..], b.processedAsSpouse);
      BuildRootsOnePerRoot(ms, time, roots[1..], b.processedAsSpouse);
      TreeIgnoresSpouseSet(ms, time, roots[0], 0, {}, processed, {});
      assert BuildRoots(ms, time, roots, processed).nodes == [b.node.value] + rest.nodes;
      PairedByCons(b.node.value, rest.nodes, roots, RootTree(ms, time));
    }
  }

  /** Building the roots adds exactly the spouses their trees mark to the spouse set. */
  lemma {:induction false} BuildRootsMarks(ms: seq<Member>, time: Timestamps, roots: seq<Member>, processed: set<string>)
    requires forall m :: m in roots ==> m in ms
    ensures BuildRoots(ms, time, roots, processed).processedAsSpouse ==
            processed + MarkedByTrees(BuildRoots(ms, time, roots, processed).nodes)
  {
    if roots != [] {
      var b := BuildTree(ms, time, roots[0], 0, {}, processed);
      var rest := BuildRoots(ms, time, roots[1..], b.processedAsSpouse);
      var r := BuildRoots(ms, time, roots, processed);
      BuildRootsMarks(ms, time, roots[1..], b.processedAsSpouse);
      TreeMarksItsSpouses(ms, time, roots[0], 0, {}, processed);
      assert r.nodes == [b.node.value] + rest.nodes;
      assert r.nodes[1..] == rest.nodes;
    }
  }

  /** The suppression filter runs while `processedAsSpouse` is still empty, so the forest
      has exactly one tree per root candidate, in sorted root order, each at level 0 and
      each being what `buildTree` gives for that root (FamilyTree.tsx:40,152-155). */
  lemma OneTreePerRoot(ms: seq<Member>, time: Timestamps)
    ensures |GenerateTreeData(ms, time).forest| == |SortedRoots(ms, time)|
    ensures forall i :: 0 <= i < |SortedRoots(ms, time)| ==>
              Some(GenerateTreeData(ms, time).forest[i]) == BuildTree(ms, time, SortedRoots(ms, time)[i], 0, {}, {}).node
  {
    if |ms| != 0 {
      FilterKeepsAll(SortedRoots(ms, time), NotIn({}));
      BuildRootsOnePerRoot(ms, time, SortedRoots(ms, time), {});
    }
  }

  /** The final spouse set holds exactly the spouses the forest's trees mark. */
  lemma ForestMarks(ms: seq<Member>, time: Timestamps)
    ensures GenerateTreeData(ms, time).processedAsSpouse == MarkedByTrees(GenerateTreeData(ms, time).forest)
  {
    if |ms| != 0 {
      FilterKeepsAll(SortedRoots(ms, time), NotIn({}));
      BuildRootsMarks(ms, time, SortedRoots(ms, time), {});
    }
  }

  /** The tree at position `i` of the forest, grown from the `i`-th sorted root. */
  lemma ForestTree(ms: seq<Member>, time: Timestamps, i: int)
    requires 0 <= i < |GenerateTreeData(ms, time).forest|
    ensures i < |SortedRoots(ms, time)|
    ensures SortedRoots(ms, time)[i] in ms && SortedRoots(ms, time)[i].gender == Male
    ensures Some(GenerateTreeData(ms, time).forest[i]) == BuildTree(ms, time, SortedRoots(ms, time)[i], 0, {}, {}).node
  {
    var roots := SortedRoots(ms, time);
    OneTreePerRoot(ms, time);
    assert roots[i] in roots;
    assert roots[i] in RootMembers(ms);
  }

  /** The forest's roots, read off in order, are the sorted root candidates, each at level 0. */
  lemma ForestRoots(ms: seq<Member>, time: Timestamps)
    ensures MembersOf(GenerateTreeData(ms, time).forest) == SortedRoots(ms, time)
    ensures forall t :: t in GenerateTreeData(ms, time).forest ==> t.level == 0
  {
    ForestMembers(ms, time);
    ForestLevels(ms, time);
  }

  lemma ForestMembers(ms: seq<Member>, time: Timestamps)
    ensures MembersOf(GenerateTreeData(ms, time).forest) == SortedRoots(ms, time)
  {
    var f := GenerateTreeData(ms, time).forest;
    var roots := SortedRoots(ms, time);
    ForestSize(ms, time);
    forall i | 0 <= i < |f| ensures MembersOf(f)[i] == roots[i] {
      ForestNode(ms, time, i);
    }
  }

  lemma ForestLevels(ms: seq<Member>, time: Timestamps)
    ensures forall t :: t in GenerateTreeData(ms, time).forest ==> t.level == 0
  {
    var f := GenerateTreeData(ms, time).forest;
    forall t | t in f ensures t.level == 0 {
      var i :| 0 <= i < |f| && f[i] == t;
      ForestNode(ms, time, i);
    }
  }

  lemma ForestSize(ms: seq<Member>, time: Timestamps)
    ensures |GenerateTreeData(ms, time).forest| == |SortedRoots(ms, time)|
  {
    OneTreePerRoot(ms, time);
  }

  /** The forest's `i`-th tree shows the `i`-th sorted root at level 0. */
  lemma ForestNode(ms: seq<Member>, time: Timestamps, i: int)
    requires 0 <= i < |GenerateTreeData(ms, time).forest|
    ensures i < |SortedRoots(ms, time)|
    ensures GenerateTreeData(ms, time).forest[i].member == SortedRoots(ms, time)[i]
    ensures GenerateTreeData(ms, time).forest[i].level == 0
  {
    ForestTree(ms, time, i);
  }

  /** Roots come out with the dated ones in ascending birth order, and roots that share
      a birth time (or are undated) keep their input order (FamilyTree.tsx:141-149). */
  lemma RootsInBirthOrder(ms: seq<Member>, time: Timestamps, t: Option<int>)
    ensures Ascending(MembersOf(GenerateTreeData(ms, time).forest), time)
    ensures Filter(MembersOf(GenerateTreeData(ms, time).forest), HasBirthTime(time, t)) ==
            Filter(RootMembers(ms), HasBirthTime(time, t))
  {
    ForestRoots(ms, time);
    SortStable(RootMembers(ms), time, t);
  }

  /** Every tree of the forest has the shape of a tree grown from a man at level 0. */
  lemma ForestShaped(ms: seq<Member>, time: Timestamps)
    ensures forall i :: 0 <= i < |GenerateTreeData(ms, time).forest| ==>
              Shaped(ms, GenerateTreeData(ms, time).forest[i], 0, {})
  {
    forall i | 0 <= i < |GenerateTreeData(ms, time).forest|
      ensures Shaped(ms, GenerateTreeData(ms, time).forest[i], 0, {})
    {
      ForestTree(ms, time, i);
      ManTreeShaped(ms, time, SortedRoots(ms, time)[i], 0, {}, {});
    }
  }

  /** No man appears among his own children, even when his father reference is his own
      id: the visited set cuts the self-fathered root (FamilyTree.tsx:49-54,80,107). */
  lemma ManNotOwnChild(ms: seq<Member>, time: Timestamps, p: Member, level: nat, v: set<string>, processed: set<string>)
    requires p in ms && p.gender == Male && p.id !in v
    ensures forall c :: c in BuildTree(ms, time, p, level, v, processed).node.value.children ==> c.member != p
  {
    var n := BuildTree(ms, time, p, level, v, processed).node.value;
    ManTreeShaped(ms, time, p, level, v, processed);
    forall c | c in n.children ensures c.member != p {
      assert Shaped(ms, c, level + 1, v + {p.id});
    }
  }

  lemma RootNotOwnChild(ms: seq<Member>, time: Timestamps, i: int)
    requires 0 <= i < |GenerateTreeData(ms, time).forest|
    ensures forall c :: c in GenerateTreeData(ms, time).forest[i].children ==>
              c.member != GenerateTreeData(ms, time).forest[i].member
  {
    ForestTree(ms, time, i);
    ManNotOwnChild(ms, time, SortedRoots(ms, time)[i], 0, {}, {});
  }

  lemma RootTreeDepth(ms: seq<Member>, time: Timestamps, root: Member)
    requires DistinctIds(ms) && root in ms && root.gender == Male
    ensures LevelsWithin(BuildTree(ms, time, root, 0, {}, {}).node.value, |IdsOf(ms)|)
  {
    var empty: set<string> := {};
    assert IdsOf(ms) - empty == IdsOf(ms);
    ManTreeDepth(ms, time, root, 0, empty, empty);
  }

  /** With distinct ids, no tree of the forest has more levels than there are ids,
      however the father references loop. */
  lemma ForestDepth(ms: seq<Member>, time: Timestamps, i: int)
    requires DistinctIds(ms)
    requires 0 <= i < |GenerateTreeData(ms, time).forest|
    ensures LevelsWithin(GenerateTreeData(ms, time).forest[i], |IdsOf(ms)|)
  {
    ForestTree(ms, time, i);
    RootTreeDepth(ms, time, SortedRoots(ms, time)[i]);
  }
}
