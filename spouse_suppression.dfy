/** The root suppression of FamilyTree.tsx:152-155. The filter that is meant to skip
    roots already shown as somebody's spouse runs over the whole root list before the
    first `buildTree` call, while `processedAsSpouse` is still empty, so it never skips
    anything (`GenerateTreeData`, with `OneTreePerRoot`). This module exhibits an input on
    which a root marked as a spouse is nevertheless drawn as its own tree, and defines
    the evidently intended builder, which consults the set before each root. */
module SpouseSuppression {
  import opened Lists
  import opened Members
  import opened BirthOrder
  import opened FamilyTree
  import opened FamilyTreeProperties

  // ---------------------------------------------------------------------------
  // The intended behaviour

  /** The roots built one after another, each skipped when an earlier tree has already
      marked its id as a spouse. */
  function BuildRootsSuppressing(ms: seq<Member>, time: Timestamps, roots: seq<Member>, processed: set<string>): (r: BuiltList)
    requires forall m :: m in roots ==> m in ms
    ensures processed <= r.processedAsSpouse
    ensures |r.nodes| <= |roots|
  {
    if roots == [] then BuiltList([], processed)
    else if roots[0].id in processed then BuildRootsSuppressing(ms, time, roots[1..], processed)
    else
      var b := BuildTree(ms, time, roots[0], 0, {}, processed);
      TreeMarksItsSpouses(ms, time, roots[0], 0, {}, processed);
      var rest := BuildRootsSuppressing(ms, time, roots[1..], b.processedAsSpouse);
      BuiltList([b.node.value] + rest.nodes, rest.processedAsSpouse)
  }

  /** `generateTreeData` with the suppression test made as each root comes up. */
  function GenerateTreeDataSuppressing(ms: seq<Member>, time: Timestamps): (r: Generated)
    ensures ms == [] ==> r.forest == []
  {
    if |ms| == 0 then Generated([], {})
    else
      var built := BuildRootsSuppressing(ms, time, SortedRoots(ms, time), {});
      Generated(built.nodes, built.processedAsSpouse)
  }

  /** The final set holds the starting set plus exactly the spouses the drawn trees mark. */
  lemma {:induction false} SuppressingMarks(ms: seq<Member>, time: Timestamps, roots: seq<Member>, processed: set<string>)
    requires forall m :: m in roots ==> m in ms
    ensures BuildRootsSuppressing(ms, time, roots, processed).processedAsSpouse ==
            processed + MarkedByTrees(BuildRootsSuppressing(ms, time, roots, processed).nodes)
  {
    if roots != [] {
      if roots[0].id in processed {
        SuppressingMarks(ms, time, roots[1..], processed);
      } else {
        var b := BuildTree(ms, time, roots[0], 0, {}, processed);
        var rest := BuildRootsSuppressing(ms, time, roots[1..], b.processedAsSpouse);
        var r := BuildRootsSuppressing(ms, time, roots, processed);
        SuppressingMarks(ms, time, roots[1..], b.processedAsSpouse);
        TreeMarksItsSpouses(ms, time, roots[0], 0, {}, processed);
        assert r.nodes[1..] == rest.nodes;
      }
    }
  }

  /** No node of `ns` belongs to a man that `processed` or an earlier node marks as a spouse. */
  predicate NoneMarkedBefore(ns: seq<TreeNode>, processed: set<string>) {
    forall i :: 0 <= i < |ns| ==> ns[i].id !in processed + MarkedByTrees(ns[..i])
  }

  /** No tree is drawn for a man the starting set or an earlier tree marks as a spouse. */
  lemma {:induction false} SuppressingSkipsMarked(ms: seq<Member>, time: Timestamps, roots: seq<Member>, processed: set<string>)
    requires forall m :: m in roots ==> m in ms
    ensures NoneMarkedBefore(BuildRootsSuppressing(ms, time, roots, processed).nodes, processed)
  {
    if roots != [] {
      if roots[0].id in processed {
        SuppressingSkipsMarked(ms, time, roots[1..], processed);
      } else {
        var b := BuildTree(ms, time, roots[0], 0, {}, processed);
        var t := b.node.value;
        var rest := BuildRootsSuppressing(ms, time, roots[1..], b.processedAsSpouse);
        SuppressingSkipsMarked(ms, time, roots[1..], b.processedAsSpouse);
        TreeMarksItsSpouses(ms, time, roots[0], 0, {}, processed);
        assert BuildRootsSuppressing(ms, time, roots, processed).nodes == [t] + rest.nodes;
        SkipsMarkedStep(t, rest.nodes, processed);
      }
    }
  }

  /** Drawing `t` in front of trees that avoid everything `t` marks keeps the property. */
  lemma SkipsMarkedStep(t: TreeNode, rest: seq<TreeNode>, processed: set<string>)
    requires t.id !in processed
    requires NoneMarkedBefore(rest, processed + Marked(t))
    ensures NoneMarkedBefore([t] + rest, processed)
  {
    var ns := [t] + rest;
    forall i | 0 <= i < |ns|
      ensures ns[i].id !in processed + MarkedByTrees(ns[..i])
    {
      if i == 0 {
        assert ns[..i] == [];
      } else {
        assert ns[i] == rest[i - 1];
        assert ns[..i][1..] == rest[..i - 1];
        assert MarkedByTrees(ns[..i]) == Marked(t) + MarkedByTrees(rest[..i - 1]);
      }
    }
  }

  /** Every drawn tree is the one `buildTree` gives its root on its own. */
  lemma {:induction false} SuppressingBuildsRoots(ms: seq<Member>, time: Timestamps, roots: seq<Member>, processed: set<string>)
    requires forall m :: m in roots ==> m in ms
    ensures forall t :: t in BuildRootsSuppressing(ms, time, roots, processed).nodes ==>
              t.member in roots && Some(t) == BuildTree(ms, time, t.member, 0, {}, {}).node
  {
    if roots != [] {
      if roots[0].id in processed {
        SuppressingBuildsRoots(ms, time, roots[1..], processed);
      } else {
        var b := BuildTree(ms, time, roots[0], 0, {}, processed);
        var rest := BuildRootsSuppressing(ms, time, roots[1..], b.processedAsSpouse);
        SuppressingBuildsRoots(ms, time, roots[1..], b.processedAsSpouse);
        TreeIgnoresSpouseSet(ms, time, roots[0], 0, {}, processed, {});
        assert BuildRootsSuppressing(ms, time, roots, processed).nodes == [b.node.value] + rest.nodes;
      }
    }
  }

  /** Every member of `roots` is drawn in `ns` or marked in `marked`. */
  predicate DrawnOrMarked(roots: seq<Member>, ns: seq<TreeNode>, marked: set<string>) {
    forall m :: m in roots ==> m in MembersOf(ns) || m.id in marked
  }

  /** Every root is either drawn or marked as a spouse by the end. */
  lemma {:induction false} SuppressingCoversRoots(ms: seq<Member>, time: Timestamps, roots: seq<Member>, processed: set<string>)
    requires forall m :: m in roots ==> m in ms
    ensures var r := BuildRootsSuppressing(ms, time, roots, processed);
            DrawnOrMarked(roots, r.nodes, r.processedAsSpouse)
  {
    if roots != [] {
      var r := BuildRootsSuppressing(ms, time, roots, processed);
      if roots[0].id in processed {
        SuppressingCoversRoots(ms, time, roots[1..], processed);
        CoversWhenSkipped(roots, r.nodes, r.processedAsSpouse);
      } else {
        var b := BuildTree(ms, time, roots[0], 0, {}, processed);
        var rest := BuildRootsSuppressing(ms, time, roots[1..], b.processedAsSpouse);
        SuppressingCoversRoots(ms, time, roots[1..], b.processedAsSpouse);
        CoversWhenDrawn(roots, b.node.value, rest.nodes, r.processedAsSpouse);
      }
    }
  }

  lemma CoversWhenSkipped(roots: seq<Member>, ns: seq<TreeNode>, marked: set<string>)
    requires roots != [] && roots[0].id in marked
    requires DrawnOrMarked(roots[1..], ns, marked)
    ensures DrawnOrMarked(roots, ns, marked)
  {
    forall m | m in roots ensures m in MembersOf(ns) || m.id in marked {
      if m != roots[0] {
        assert m in roots[1..];
      }
    }
  }

  lemma CoversWhenDrawn(roots: seq<Member>, t: TreeNode, ns: seq<TreeNode>, marked: set<string>)
    requires roots != [] && t.member == roots[0]
    requires DrawnOrMarked(roots[1..], ns, marked)
    ensures DrawnOrMarked(roots, [t] + ns, marked)
  {
    MembersOfConcat([t], ns);
    assert MembersOf([t] + ns) == [t.member] + MembersOf(ns);
    forall m | m in roots ensures m in MembersOf([t] + ns) || m.id in marked {
      if m != roots[0] {
        assert m in roots[1..];
      }
    }
  }

  /** The intended property for the whole forest: no drawn tree belongs to a man an
      earlier tree shows as a spouse, and every root candidate is drawn or marked. */
  lemma NoRootRedrawnAsSpouse(ms: seq<Member>, time: Timestamps)
    ensures var g := GenerateTreeDataSuppressing(ms, time);
            && NoneMarkedBefore(g.forest, {})
            && DrawnOrMarked(SortedRoots(ms, time), g.forest, g.processedAsSpouse)
  {
    if |ms| != 0 {
      SuppressingSkipsMarked(ms, time, SortedRoots(ms, time), {});
      SuppressingCoversRoots(ms, time, SortedRoots(ms, time), {});
    }
  }

  // ---------------------------------------------------------------------------
  // The input that shows the difference

  /** A man with nothing set but his id, gender and spouse reference. */
  function Man(id: string, spouse: Option<string>): Member {
    Member(id, id, Male, None, None, None, None, None, None, None, None, spouse)
  }

  /** Two fatherless men, "a" naming "b" as his spouse. Both are roots; "a" is undated,
      so the stable sort keeps "a" first and building his tree marks "b". */
  function Pair(): seq<Member> {
    [Man("a", Some("b")), Man("b", None)]
  }

  lemma PairRootsInOrder(time: Timestamps)
    ensures SortedRoots(Pair(), time) == Pair()
  {
    var ms := Pair();
    assert !HasFatherIn(ms, ms[0]) && !HasFatherIn(ms, ms[1]);
    assert ms[1..] == [ms[1]];
    assert RootMembers(ms) == ms;
    assert Insert([ms[0]], ms[1], time) == [ms[0]] + Insert([], ms[1], time);
    assert [ms[0]][1..] == [];
    assert ms[..1] == [ms[0]];
  }

  /** The tree of "a" shows "b" as his spouse. */
  lemma TreeOfA(ms: seq<Member>, time: Timestamps)
    requires ms == Pair()
    ensures BuildTree(ms, time, ms[0], 0, {}, {}).node.value.spouse == Some(ms[1])
  {
    ManTreeShaped(ms, time, ms[0], 0, {}, {});
    assert ms[1].id in IdsOf(ms);
  }

  /** As written: "b" ends up in `processedAsSpouse`, yet a tree is drawn for him. */
  lemma AsWrittenRedrawsSpouse(time: Timestamps)
    ensures var g := GenerateTreeData(Pair(), time);
            && |g.forest| == 2
            && "b" in g.processedAsSpouse
            && g.forest[1].id == "b"
  {
    var ms := Pair();
    var g := GenerateTreeData(ms, time);
    PairRootsInOrder(time);
    OneTreePerRoot(ms, time);
    ForestMarks(ms, time);
    TreeOfA(ms, time);
    assert "b" in Marked(g.forest[0]);
    assert MarkedByTrees(g.forest) == Marked(g.forest[0]) + MarkedByTrees(g.forest[1..]);
  }

  /** Corrected: the tree of "a" marks "b", so "b" gets no tree of his own. */
  lemma SuppressingDrawsSpouseOnce(time: Timestamps)
    ensures var g := GenerateTreeDataSuppressing(Pair(), time);
            && |g.forest| == 1
            && g.forest[0].id == "a"
            && "b" in g.processedAsSpouse
  {
    var ms := Pair();
    PairRootsInOrder(time);
    var b := BuildTree(ms, time, ms[0], 0, {}, {});
    TreeMarksItsSpouses(ms, time, ms[0], 0, {}, {});
    TreeOfA(ms, time);
    assert "b" in b.processedAsSpouse;
    assert ms[1..][1..] == [];
  }
}
