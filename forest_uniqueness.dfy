/** With distinct ids, no member is shown at two nodes of the forest
    (src/components/FamilyTree.tsx:43-155).

    Every child node's member has its parent's id as father reference, so following
    father references upwards from a node's member climbs the tree node by node and
    reaches the tree's root after exactly `level` steps. No member on the way is a root
    member: a child whose father reference names another member is not a root, and a
    self-fathered root is never its own child. Two nodes showing the same member
    therefore sit at the same level under the same root. Root members are distinct, so
    they sit in the same tree, and there they lie below the same child at every level,
    because deduplication leaves no two siblings with the same id. */
module ForestUniqueness {
  import opened Lists
  import opened Members
  import opened BirthOrder
  import opened FamilyTree
  import opened FamilyTreeProperties

  // ---------------------------------------------------------------------------
  // All the nodes of a tree

  /** The nodes of a tree: the root, then its children's trees in order. */
  function Nodes(n: TreeNode): seq<TreeNode>
    decreases n, 1
  {
    [n] + NodesOfList(n.children)
  }

  function NodesOfList(ns: seq<TreeNode>): seq<TreeNode>
    decreases ns, 0
  {
    if ns == [] then [] else Nodes(ns[0]) + NodesOfList(ns[1..])
  }

  /** No two nodes of the list show the same member. */
  predicate UniqueMembers(ns: seq<TreeNode>) {
    forall i, j :: 0 <= i < j < |ns| ==> ns[i].member != ns[j].member
  }

  /** Nodes of the list that show the same member sit at the same level. */
  predicate LevelFixed(ns: seq<TreeNode>) {
    forall x, y :: x in ns && y in ns && x.member == y.member ==> x.level == y.level
  }

  lemma UniqueConcat(a: seq<TreeNode>, b: seq<TreeNode>)
    requires UniqueMembers(a) && UniqueMembers(b)
    requires forall x, y :: x in a && y in b ==> x.member != y.member
    ensures UniqueMembers(a + b)
  {
    forall i, j | 0 <= i < j < |a + b| ensures (a + b)[i].member != (a + b)[j].member {
      if j < |a| {
        assert (a + b)[i] == a[i] && (a + b)[j] == a[j];
      } else if i >= |a| {
        assert (a + b)[i] == b[i - |a|] && (a + b)[j] == b[j - |a|];
      } else {
        assert (a + b)[i] == a[i] && (a + b)[j] == b[j - |a|];
        assert a[i] in a && b[j - |a|] in b;
      }
    }
  }

  /** A node of a list of trees lies in one of the trees. */
  lemma {:induction false} InNodesOfList(ns: seq<TreeNode>, x: TreeNode)
    requires x in NodesOfList(ns)
    ensures exists k :: 0 <= k < |ns| && x in Nodes(ns[k])
  {
    if x !in Nodes(ns[0]) {
      InNodesOfList(ns[1..], x);
      var k :| 0 <= k < |ns[1..]| && x in Nodes(ns[1..][k]);
      assert ns[1..][k] == ns[k + 1];
    }
  }

  // ---------------------------------------------------------------------------
  // Climbing father references

  /** The first member of the list with the id, found by plain recursion. */
  function WithId(ms: seq<Member>, id: string): Option<Member> {
    if ms == [] then None else if ms[0].id == id then Some(ms[0]) else WithId(ms[1..], id)
  }

  /** With distinct ids, looking up a member's id finds that member. */
  lemma {:induction false} WithIdOfMember(ms: seq<Member>, m: Member)
    requires DistinctIds(ms) && m in ms
    ensures WithId(ms, m.id) == Some(m)
  {
    if ms[0] != m {
      var k :| 0 <= k < |ms| && ms[k] == m;
      assert k > 0 && ms[0].id != ms[k].id;
      assert ms[1..][k - 1] == m;
      assert DistinctIds(ms[1..]) by {
        forall i, j | 0 <= i < j < |ms| - 1 ensures ms[1..][i].id != ms[1..][j].id {
          assert ms[1..][i] == ms[i + 1] && ms[1..][j] == ms[j + 1];
        }
      }
      WithIdOfMember(ms[1..], m);
    }
  }

  /** The member a member's father reference names. */
  function Parent(ms: seq<Member>, x: Member): Option<Member> {
    if x.father.Some? then WithId(ms, x.father.value) else None
  }

  /** The member reached from `x` by following `k` father references. */
  function Up(ms: seq<Member>, x: Member, k: nat): Option<Member>
    decreases k
  {
    if k == 0 then Some(x)
    else match Parent(ms, x)
      case None => None
      case Some(y) => Up(ms, y, k - 1)
  }

  /** The root filter's condition (FamilyTree.tsx:133-138). */
  predicate IsRoot(ms: seq<Member>, z: Member) {
    z.gender == Male && !HasFatherIn(ms, z)
  }

  /** Climbing `k` father references from `m` reaches `top`, and passes no root member
      before it. */
  predicate Climbs(ms: seq<Member>, m: Member, k: nat, top: Member) {
    && Up(ms, m, k) == Some(top)
    && forall j :: 0 <= j < k ==> Up(ms, m, j).Some? && !IsRoot(ms, Up(ms, m, j).value)
  }

  /** One more step after reaching `c` leads to `c`'s parent. */
  lemma {:induction false} UpStep(ms: seq<Member>, x: Member, k: nat, c: Member, p: Member)
    requires Up(ms, x, k) == Some(c) && Parent(ms, c) == Some(p)
    ensures Up(ms, x, k + 1) == Some(p)
    decreases k
  {
    if k > 0 {
      UpStep(ms, Parent(ms, x).value, k - 1, c, p);
    }
  }

  /** Climbing from a member stops at the first root member on the way, so two climbs
      from the same member that both end at a root member take the same number of steps
      and end at the same root. */
  lemma ClimbsToOneRoot(ms: seq<Member>, m1: Member, a: nat, r1: Member, m2: Member, b: nat, r2: Member)
    requires Climbs(ms, m1, a, r1) && IsRoot(ms, r1)
    requires Climbs(ms, m2, b, r2) && IsRoot(ms, r2)
    ensures m1 == m2 ==> a == b && r1 == r2
  {
    assert Up(ms, m1, a) == Some(r1) && Up(ms, m2, b) == Some(r2);
  }

  // ---------------------------------------------------------------------------
  // Climbing a tree

  /** A child node's member has the parent node's member as parent, and is not a root
      member: a root's father reference names no other member, and a self-fathered man
      is never his own child. */
  lemma ChildNotRoot(ms: seq<Member>, n: TreeNode, level: nat, ancestors: set<string>, c: TreeNode)
    requires DistinctIds(ms) && Shaped(ms, n, level, ancestors) && c in n.children
    ensures Parent(ms, c.member) == Some(n.member)
    ensures !IsRoot(ms, c.member)
  {
    assert c.member.father == Some(n.id) && Shaped(ms, c, level + 1, ancestors + {n.id});
    WithIdOfMember(ms, n.member);
    IdIdentifies(ms, c.member);
  }

  /** What climbing a tree needs of it: each child sits one level deeper, its member's
      parent is the node's member, and it is not a root member. */
  predicate Linked(ms: seq<Member>, n: TreeNode)
    decreases n
  {
    forall c :: c in n.children ==>
      && c.level == n.level + 1
      && Parent(ms, c.member) == Some(n.member)
      && !IsRoot(ms, c.member)
      && Linked(ms, c)
  }

  /** A shaped tree is linked. */
  lemma {:induction false} ShapedLinked(ms: seq<Member>, n: TreeNode, level: nat, ancestors: set<string>)
    requires DistinctIds(ms) && Shaped(ms, n, level, ancestors)
    ensures Linked(ms, n)
    decreases n
  {
    forall c | c in n.children
      ensures c.level == n.level + 1 && Parent(ms, c.member) == Some(n.member) && !IsRoot(ms, c.member)
      ensures Linked(ms, c)
    {
      ChildNotRoot(ms, n, level, ancestors, c);
      assert Shaped(ms, c, level + 1, ancestors + {n.id});
      ShapedLinked(ms, c, level + 1, ancestors + {n.id});
    }
  }

  /** Every node of a linked tree lies at or below the tree's level, and climbing from
      its member as many steps as it lies below reaches the tree's member, passing no
      root member. */
  lemma {:induction false} Anchor(ms: seq<Member>, n: TreeNode, x: TreeNode)
    requires Linked(ms, n) && x in Nodes(n)
    ensures x.level >= n.level && Climbs(ms, x.member, x.level - n.level, n.member)
    decreases n
  {
    if x != n {
      var c := ChildHolding(n, x);
      Anchor(ms, c, x);
      ClimbStep(ms, x.member, x.level - c.level, c.member, n.member);
    }
  }

  /** The child of `n` whose tree holds `x`, a node below `n`. */
  lemma ChildHolding(n: TreeNode, x: TreeNode) returns (c: TreeNode)
    requires x in Nodes(n) && x != n
    ensures c in n.children && x in Nodes(c)
  {
    assert x in NodesOfList(n.children);
    InNodesOfList(n.children, x);
    var k :| 0 <= k < |n.children| && x in Nodes(n.children[k]);
    c := n.children[k];
  }

  /** A climb that ends at a non-root member extends by one step to that member's parent. */
  lemma ClimbStep(ms: seq<Member>, m: Member, d: nat, c: Member, p: Member)
    requires Climbs(ms, m, d, c) && Parent(ms, c) == Some(p) && !IsRoot(ms, c)
    ensures Climbs(ms, m, d + 1, p)
  {
    UpStep(ms, m, d, c, p);
  }

  /** The nodes below a tree's root lie deeper than the root. */
  lemma Below(ms: seq<Member>, n: TreeNode)
    requires Linked(ms, n)
    ensures forall x :: x in NodesOfList(n.children) ==> x.level > n.level
  {
    forall x | x in NodesOfList(n.children) ensures x.level > n.level {
      InNodesOfList(n.children, x);
      var k :| 0 <= k < |n.children| && x in Nodes(n.children[k]);
      Anchor(ms, n.children[k], x);
    }
  }

  // ---------------------------------------------------------------------------
  // Distinct siblings

  /** No two children of any node share an id. */
  predicate DistinctSiblings(n: TreeNode)
    decreases n
  {
    DistinctIds(MembersOf(n.children)) && forall c :: c in n.children ==> DistinctSiblings(c)
  }

  lemma IdsOfCons(x: Member, s: seq<Member>)
    ensures IdsOf([x] + s) == {x.id} + IdsOf(s)
  {
    assert forall m :: m in [x] + s <==> m == x || m in s;
  }

  /** A list has distinct ids exactly when its head's id is not in the tail and the tail
      has distinct ids. */
  lemma DistinctCons(x: Member, s: seq<Member>)
    ensures DistinctIds([x] + s) <==> x.id !in IdsOf(s) && DistinctIds(s)
  {
    var t := [x] + s;
    if DistinctIds(t) {
      forall i, j | 0 <= i < j < |s| ensures s[i].id != s[j].id {
        assert t[i + 1] == s[i] && t[j + 1] == s[j];
      }
      forall m | m in s ensures m.id != x.id {
        var k :| 0 <= k < |s| && s[k] == m;
        assert t[0] == x && t[k + 1] == m;
      }
    }
    if x.id !in IdsOf(s) && DistinctIds(s) {
      forall i, j | 0 <= i < j < |t| ensures t[i].id != t[j].id {
        assert t[j] == s[j - 1] && t[j] in s;
        if i > 0 {
          assert t[i] == s[i - 1];
        }
      }
    }
  }

  /** Filtering keeps ids distinct. */
  lemma {:induction false} FilterKeepsDistinctIds(s: seq<Member>, p: Member -> bool)
    requires DistinctIds(s)
    ensures DistinctIds(Filter(s, p))
  {
    if s != [] {
      assert s == [s[0]] + s[1..];
      DistinctCons(s[0], s[1..]);
      FilterKeepsDistinctIds(s[1..], p);
      FilterCons(s[0], s[1..], p);
      if p(s[0]) {
        assert IdsOf(Filter(s[1..], p)) <= IdsOf(s[1..]);
        DistinctCons(s[0], Filter(s[1..], p));
      }
    }
  }

  /** A list never has more ids than entries, and has as many exactly when they are distinct. */
  lemma {:induction false} DistinctIdsCount(s: seq<Member>)
    ensures |IdsOf(s)| <= |s|
    ensures DistinctIds(s) <==> |IdsOf(s)| == |s|
  {
    if s == [] {
      assert IdsOf(s) == {};
    } else {
      assert s == [s[0]] + s[1..];
      DistinctIdsCount(s[1..]);
      IdsOfCons(s[0], s[1..]);
      DistinctCons(s[0], s[1..]);
    }
  }

  /** Sorting keeps ids distinct. */
  lemma SortKeepsDistinctIds(s: seq<Member>, time: Timestamps)
    requires DistinctIds(s)
    ensures DistinctIds(SortByBirth(s, time))
  {
    var r := SortByBirth(s, time);
    SortSameMembers(s, time);
    assert IdsOf(r) == IdsOf(s);
    DistinctIdsCount(s);
    DistinctIdsCount(r);
  }

  /** Every node of a man's tree has children with distinct ids: they come from the
      deduplicated children list (FamilyTree.tsx:87-91). */
  lemma {:induction false} ManTreeDistinctSiblings(ms: seq<Member>, time: Timestamps, p: Member, level: nat,
                                                  v: set<string>, processed: set<string>)
    requires p in ms && p.gender == Male && p.id !in v
    ensures DistinctSiblings(BuildTree(ms, time, p, level, v, processed).node.value)
    decreases |IdsOf(ms) - v|, 0
  {
    var spouse := SpouseOf(ms, p);
    var marked := if spouse.Some? then processed + {spouse.value.id} else processed;
    var kids := SortedChildren(ms, time, p, spouse);
    var unique := DedupById(Filter(ms, FatheredBy(p.id)));
    ShrinkUnvisited(IdsOf(ms), v, p.id);
    BuildTreeStep(ms, time, p, level, v, processed);
    ManChildren(ms, time, p, level, v, processed);
    SortKeepsDistinctIds(unique, time);
    FilterKeepsDistinctIds(SortByBirth(unique, time), Expanded(v + {p.id}));
    ChildListDistinctSiblings(ms, time, kids, level + 1, v + {p.id}, marked);
  }

  lemma {:induction false} ChildListDistinctSiblings(ms: seq<Member>, time: Timestamps, kids: seq<Member>, level: nat,
                                                    v: set<string>, processed: set<string>)
    requires forall k :: k in kids ==> k in ms
    ensures forall c :: c in BuildChildren(ms, time, kids, level, v, processed).nodes ==> DistinctSiblings(c)
    decreases |IdsOf(ms) - v|, |kids|
  {
    if kids != [] {
      var k := kids[0];
      if k.gender == Male {
        var b := BuildTree(ms, time, k, level, v, processed);
        if b.node.Some? {
          ManTreeDistinctSiblings(ms, time, k, level, v, processed);
        }
        ChildListDistinctSiblings(ms, time, kids[1..], level, v, b.processedAsSpouse);
      } else {
        assert DistinctSiblings(Leaf(ms, k, level));
        ChildListDistinctSiblings(ms, time, kids[1..], level, v, processed);
      }
    }
  }

  // ---------------------------------------------------------------------------
  // Uniqueness

  lemma DistinctTail(ns: seq<TreeNode>)
    requires ns != [] && DistinctIds(MembersOf(ns))
    ensures DistinctIds(MembersOf(ns[1..]))
  {
    forall i, j | 0 <= i < j < |ns| - 1 ensures MembersOf(ns[1..])[i].id != MembersOf(ns[1..])[j].id {
      assert MembersOf(ns[1..])[i] == MembersOf(ns)[i + 1];
      assert MembersOf(ns[1..])[j] == MembersOf(ns)[j + 1];
    }
  }

  /** Within a tree where same-member nodes share a level, no member is shown twice. */
  lemma {:induction false} TreeUnique(ms: seq<Member>, n: TreeNode)
    requires Linked(ms, n) && DistinctSiblings(n)
    requires LevelFixed(Nodes(n))
    ensures UniqueMembers(Nodes(n))
    decreases n, 1
  {
    var below := NodesOfList(n.children);
    assert Nodes(n) == [n] + below;
    Below(ms, n);
    ListUnique(ms, n.children, n.level + 1);
    UniqueConcat([n], below);
  }

  lemma {:induction false} ListUnique(ms: seq<Member>, ns: seq<TreeNode>, level: nat)
    requires DistinctIds(MembersOf(ns))
    requires forall c :: c in ns ==> c.level == level && Linked(ms, c) && DistinctSiblings(c)
    requires LevelFixed(NodesOfList(ns))
    ensures UniqueMembers(NodesOfList(ns))
    decreases ns, 0
  {
    if ns != [] {
      var first, rest := Nodes(ns[0]), NodesOfList(ns[1..]);
      assert NodesOfList(ns) == first + rest;
      TreeUnique(ms, ns[0]);
      DistinctTail(ns);
      ListUnique(ms, ns[1..], level);
      forall x, y | x in first && y in rest ensures x.member != y.member {
        SiblingsApart(ms, ns, level, x, y);
      }
      UniqueConcat(first, rest);
    }
  }

  /** Nodes under two different siblings, at the same level, climb to different
      siblings, so they show different members. */
  lemma SiblingsApart(ms: seq<Member>, ns: seq<TreeNode>, level: nat, x: TreeNode, y: TreeNode)
    requires ns != [] && DistinctIds(MembersOf(ns))
    requires forall c :: c in ns ==> c.level == level && Linked(ms, c)
    requires LevelFixed(NodesOfList(ns))
    requires x in Nodes(ns[0]) && y in NodesOfList(ns[1..])
    ensures x.member != y.member
  {
    InNodesOfList(ns[1..], y);
    var k :| 0 <= k < |ns[1..]| && y in Nodes(ns[1..][k]);
    var c := ns[k + 1];
    assert ns[1..][k] == c;
    assert ns[0] in ns && c in ns;
    SameLevelAcross(ns, x, y);
    HeadIdApart(ns, k + 1);
    NodesApart(ms, ns[0], c, x, y);
  }

  /** Nodes of two linked trees at the same level with differently identified members,
      when nodes showing the same member would sit at the same level, show different members. */
  lemma NodesApart(ms: seq<Member>, a: TreeNode, c: TreeNode, x: TreeNode, y: TreeNode)
    requires Linked(ms, a) && Linked(ms, c) && a.level == c.level && a.member.id != c.member.id
    requires x in Nodes(a) && y in Nodes(c)
    requires x.member == y.member ==> x.level == y.level
    ensures x.member != y.member
  {
    AnchorUp(ms, a, x);
    AnchorUp(ms, c, y);
    ClimbsApart(ms, x.member, x.level - a.level, a.member, y.member, y.level - c.level, c.member);
  }

  /** The climbing part of `Anchor` alone. */
  lemma AnchorUp(ms: seq<Member>, n: TreeNode, x: TreeNode)
    requires Linked(ms, n) && x in Nodes(n)
    ensures x.level >= n.level && Up(ms, x.member, x.level - n.level) == Some(n.member)
  {
    Anchor(ms, n, x);
  }

  /** Climbs of equal length that reach different members start from different members. */
  lemma ClimbsApart(ms: seq<Member>, m1: Member, d1: nat, t1: Member, m2: Member, d2: nat, t2: Member)
    requires Up(ms, m1, d1) == Some(t1) && Up(ms, m2, d2) == Some(t2) && t1.id != t2.id
    requires m1 == m2 ==> d1 == d2
    ensures m1 != m2
  {
  }

  lemma SameLevelAcross(ns: seq<TreeNode>, x: TreeNode, y: TreeNode)
    requires ns != [] && LevelFixed(NodesOfList(ns))
    requires x in Nodes(ns[0]) && y in NodesOfList(ns[1..])
    ensures x.member == y.member ==> x.level == y.level
  {
    assert NodesOfList(ns) == Nodes(ns[0]) + NodesOfList(ns[1..]);
    assert x in NodesOfList(ns) && y in NodesOfList(ns);
  }

  lemma HeadIdApart(ns: seq<TreeNode>, i: int)
    requires 0 < i < |ns| && DistinctIds(MembersOf(ns))
    ensures ns[0].member.id != ns[i].member.id
  {
    assert MembersOf(ns)[0] == ns[0].member && MembersOf(ns)[i] == ns[i].member;
  }

  /** In a tree grown from a root member, nodes showing the same member sit at the same level. */
  lemma RootTreeLevelFixed(ms: seq<Member>, t: TreeNode)
    requires Linked(ms, t) && IsRoot(ms, t.member)
    ensures LevelFixed(Nodes(t))
  {
    forall x, y | x in Nodes(t) && y in Nodes(t) ensures x.member == y.member ==> x.level == y.level {
      Anchor(ms, t, x);
      Anchor(ms, t, y);
      ClimbsToOneRoot(ms, x.member, x.level - t.level, t.member, y.member, y.level - t.level, t.member);
    }
  }

  /** A list of root trees shows no member twice. */
  lemma {:induction false} RootTreesUnique(ms: seq<Member>, ts: seq<TreeNode>)
    requires DistinctIds(MembersOf(ts))
    requires forall t :: t in ts ==> t.level == 0 && Linked(ms, t) && DistinctSiblings(t) && IsRoot(ms, t.member)
    ensures UniqueMembers(NodesOfList(ts))
  {
    if ts != [] {
      var first, rest := Nodes(ts[0]), NodesOfList(ts[1..]);
      assert NodesOfList(ts) == first + rest;
      RootTreeLevelFixed(ms, ts[0]);
      TreeUnique(ms, ts[0]);
      DistinctTail(ts);
      RootTreesUnique(ms, ts[1..]);
      forall x, y | x in first && y in rest ensures x.member != y.member {
        TreesApart(ms, ts, x, y);
      }
      UniqueConcat(first, rest);
    }
  }

  /** Nodes of two different root trees climb to different roots, so they show
      different members. */
  lemma TreesApart(ms: seq<Member>, ts: seq<TreeNode>, x: TreeNode, y: TreeNode)
    requires ts != [] && DistinctIds(MembersOf(ts))
    requires forall t :: t in ts ==> t.level == 0 && Linked(ms, t) && IsRoot(ms, t.member)
    requires x in Nodes(ts[0]) && y in NodesOfList(ts[1..])
    ensures x.member != y.member
  {
    InNodesOfList(ts[1..], y);
    var k :| 0 <= k < |ts[1..]| && y in Nodes(ts[1..][k]);
    var t := ts[k + 1];
    assert ts[1..][k] == t;
    assert ts[0] in ts && t in ts;
    HeadIdApart(ts, k + 1);
    RootNodesApart(ms, ts[0], t, x, y);
  }

  /** Nodes of two linked trees topped by differently identified root members show
      different members. */
  lemma RootNodesApart(ms: seq<Member>, a: TreeNode, c: TreeNode, x: TreeNode, y: TreeNode)
    requires Linked(ms, a) && IsRoot(ms, a.member) && Linked(ms, c) && IsRoot(ms, c.member)
    requires a.member.id != c.member.id && x in Nodes(a) && y in Nodes(c)
    ensures x.member != y.member
  {
    Anchor(ms, a, x);
    Anchor(ms, c, y);
    ClimbsToOneRoot(ms, x.member, x.level - a.level, a.member, y.member, y.level - c.level, c.member);
  }

  /** With distinct ids the sorted roots have distinct ids. */
  lemma RootsDistinct(ms: seq<Member>, time: Timestamps)
    requires DistinctIds(ms)
    ensures DistinctIds(SortedRoots(ms, time))
  {
    FilterKeepsDistinctIds(ms, IsRootIn(ms));
    SortKeepsDistinctIds(RootMembers(ms), time);
  }

  /** With the distinct ids the record store guarantees, no member is shown at two nodes
      anywhere in the forest, however the father references loop. */
  lemma ForestMembersUnique(ms: seq<Member>, time: Timestamps)
    requires DistinctIds(ms)
    ensures UniqueMembers(NodesOfList(GenerateTreeData(ms, time).forest))
  {
    ForestRootsDistinct(ms, time);
    ForestTreesFacts(ms, time);
    RootTreesUnique(ms, GenerateTreeData(ms, time).forest);
  }

  /** The trees of the forest show members with distinct ids. */
  lemma ForestRootsDistinct(ms: seq<Member>, time: Timestamps)
    requires DistinctIds(ms)
    ensures DistinctIds(MembersOf(GenerateTreeData(ms, time).forest))
  {
    ForestMembers(ms, time);
    RootsDistinct(ms, time);
  }

  lemma ForestTreesFacts(ms: seq<Member>, time: Timestamps)
    requires DistinctIds(ms)
    ensures forall t :: t in GenerateTreeData(ms, time).forest ==>
              t.level == 0 && Linked(ms, t) && DistinctSiblings(t) && IsRoot(ms, t.member)
  {
    var f := GenerateTreeData(ms, time).forest;
    forall t | t in f ensures t.level == 0 && Linked(ms, t) && DistinctSiblings(t) && IsRoot(ms, t.member) {
      var i :| 0 <= i < |f| && f[i] == t;
      ForestTreeFacts(ms, time, i);
    }
  }

  /** Each tree of the forest is linked, has distinct siblings throughout, and shows a
      root member at level 0 at its top. */
  lemma ForestTreeFacts(ms: seq<Member>, time: Timestamps, i: int)
    requires DistinctIds(ms) && 0 <= i < |GenerateTreeData(ms, time).forest|
    ensures var t := GenerateTreeData(ms, time).forest[i];
            t.level == 0 && Linked(ms, t) && DistinctSiblings(t) && IsRoot(ms, t.member)
  {
    var roots := SortedRoots(ms, time);
    ForestTree(ms, time, i);
    ForestNode(ms, time, i);
    ManTreeShaped(ms, time, roots[i], 0, {}, {});
    ManTreeDistinctSiblings(ms, time, roots[i], 0, {}, {});
    assert roots[i] in roots;
    ShapedLinked(ms, GenerateTreeData(ms, time).forest[i], 0, {});
  }
}
