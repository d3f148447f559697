/** Root selection in general, and small families on which the builder's behaviour is
    worked out completely: a father cycle, a self-fathered man and a marriage recorded
    only on the wife's side. */
module FamilyTreeExamples {
  import opened Lists
  import opened Members
  import opened BirthOrder
  import opened FamilyTree
  import opened FamilyTreeProperties

  /** A man whose father reference is unset, dangling or his own id is a root: only
      ANOTHER member's id counts as a father (FamilyTree.tsx:133-138). */
  lemma FatherlessManIsRoot(ms: seq<Member>, m: Member)
    requires m in ms && m.gender == Male
    requires m.father.None? || m.father == Some(m.id) || m.father.value !in IdsOf(ms)
    ensures m in RootMembers(ms)
  {
  }

  function Person(id: string, gender: Gender, father: Option<string>, spouse: Option<string>): Member {
    Member(id, id, gender, None, None, None, None, None, None, father, None, spouse)
  }

  /** Two men, each recorded as the other's father. */
  function FatherCycle(): seq<Member> {
    [Person("a", Male, Some("b"), None), Person("b", Male, Some("a"), None)]
  }

  /** Neither man of a father cycle is a root, so nothing is drawn. */
  lemma FatherCycleDrawsNothing(ms: seq<Member>, time: Timestamps)
    requires ms == FatherCycle()
    ensures GenerateTreeData(ms, time).forest == []
  {
    assert HasFatherIn(ms, ms[0]) by { assert ms[1] in ms; }
    assert HasFatherIn(ms, ms[1]) by { assert ms[0] in ms; }
    FilterKeepsNone(ms, IsRootIn(ms));
  }

  /** A man recorded as his own father. */
  function SelfFathered(): seq<Member> {
    [Person("s", Male, Some("s"), None)]
  }

  /** The self-fathered man is a root, his tree is drawn, and he is not listed among
      his own children, so the tree is a single node. */
  lemma SelfFatheredIsLoneRoot(ms: seq<Member>, time: Timestamps)
    requires ms == SelfFathered()
    ensures |GenerateTreeData(ms, time).forest| == 1
    ensures GenerateTreeData(ms, time).forest[0].member == ms[0]
    ensures GenerateTreeData(ms, time).forest[0].children == []
  {
    var g := GenerateTreeData(ms, time);
    var roots := SortedRoots(ms, time);
    assert |roots| == 1 && roots[0] == ms[0] by {
      FatherlessManIsRoot(ms, ms[0]);
      assert |RootMembers(ms)| <= 1;
      assert ms[0] in roots;
    }
    ForestSize(ms, time);
    ForestNode(ms, time, 0);
    var n := g.forest[0];
    assert n.children == [] by {
      ForestShaped(ms, time);
      ShapedChildrenInList(ms, n, 0, {});
      RootNotOwnChild(ms, time, 0);
      HeadIn(n.children);
    }
  }

  /** A husband with no spouse reference and a wife whose reference names him. */
  function WifeSideMarriage(): seq<Member> {
    [Person("h", Male, None, None), Person("w", Female, None, Some("h"))]
  }

  /** The husband's own reference is unset, so his tree shows no spouse: the reverse
      lookup from a woman to her husband (FamilyTree.tsx:60-68) is only reached for
      women, and `buildTree` is only ever entered for men. */
  lemma WifeSideMarriageNotShown(ms: seq<Member>, time: Timestamps)
    requires ms == WifeSideMarriage()
    ensures |GenerateTreeData(ms, time).forest| == 1
    ensures GenerateTreeData(ms, time).forest[0].member == ms[0]
    ensures GenerateTreeData(ms, time).forest[0].spouse == None
  {
    var g := GenerateTreeData(ms, time);
    WifeSideRoots(ms, time);
    ForestRoots(ms, time);
    assert MembersOf(g.forest)[0] == ms[0];
    ForestTree(ms, time, 0);
    ManTreeShaped(ms, time, ms[0], 0, {}, {});
  }

  lemma WifeSideRoots(ms: seq<Member>, time: Timestamps)
    requires ms == WifeSideMarriage()
    ensures SortedRoots(ms, time) == [ms[0]]
  {
    FatherlessManIsRoot(ms, ms[0]);
    assert ms == [ms[0]] + [ms[1]];
    FilterConcat([ms[0]], [ms[1]], IsRootIn(ms));
    assert RootMembers(ms) == [ms[0]];
    assert SortByBirth([ms[0]], time) == Insert([], ms[0], time);
  }
}
