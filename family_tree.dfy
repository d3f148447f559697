/** The patrilineal tree builder: `generateTreeData` and its nested `buildTree`
    (src/components/FamilyTree.tsx:33-158), which turn the flat member list into an
    ordered forest of `TreeNode`s.

    The builder's shared mutable `processedAsSpouse` set is threaded explicitly: every
    build function takes the set as it stands before the call and returns it as it
    stands afterwards. The per-call copy of `visited` is an ordinary set value. */
module FamilyTree {
  import opened Lists
  import opened Members
  import opened BirthOrder

  /** The builder's own node shape (FamilyTree.tsx:13-21), without the layout
      coordinates `x` and `y`, which the builder never sets. */
  datatype TreeNode = TreeNode(
    id: string,
    member: Member,
    spouse: Option<Member>,
    children: seq<TreeNode>,
    level: nat)

  /** What one `buildTree` call returns (`null` is `None`), with the spouse set after it. */
  datatype Built = Built(node: Option<TreeNode>, processedAsSpouse: set<string>)

  /** The nodes of a list of calls, `null`s dropped, with the spouse set after them. */
  datatype BuiltList = BuiltList(nodes: seq<TreeNode>, processedAsSpouse: set<string>)

  /** The forest `generateTreeData` hands to `setTreeData`, with the final spouse set. */
  datatype Generated = Generated(forest: seq<TreeNode>, processedAsSpouse: set<string>)

  function MembersOf(ns: seq<TreeNode>): seq<Member> {
    seq(|ns|, i requires 0 <= i < |ns| => ns[i].member)
  }

  // ---------------------------------------------------------------------------
  // Spouse and children resolution

  /** `m.idPasangan ? memberMap.get(m.idPasangan) : undefined`: the member's own spouse
      reference looked up in the id map; absent when the reference is unset, empty or dangling. */
  function OwnSpouse(ms: seq<Member>, m: Member): (r: Option<Member>)
    ensures !Truthy(m.spouse) ==> r == None
    ensures Truthy(m.spouse) ==> (r.Some? <==> m.spouse.value in IdsOf(ms))
    ensures r.Some? ==> r.value in ms && Some(r.value.id) == m.spouse
  {
    if Truthy(m.spouse) then MapGet(ms, m.spouse.value) else None
  }

  function IsHusbandOf(id: string): Member -> bool {
    (m: Member) => m.spouse == Some(id) && m.gender == Male
  }

  /** `buildTree`'s spouse (FamilyTree.tsx:57-68): a man's own reference through the id
      map; for a woman, the first man in the list whose spouse reference is her id. */
  function SpouseOf(ms: seq<Member>, person: Member): (r: Option<Member>)
    ensures r.Some? ==> r.value in ms
  {
    if person.gender == Male && Truthy(person.spouse) then MapGet(ms, person.spouse.value)
    else if person.gender == Female then Find(ms, IsHusbandOf(person.id))
    else None
  }

  /** A man's spouse is what his own reference resolves to; a woman's is a man whose
      reference names her. */
  lemma SpouseResolution(ms: seq<Member>, person: Member)
    ensures person.gender == Male ==> SpouseOf(ms, person) == OwnSpouse(ms, person)
    ensures person.gender == Female && SpouseOf(ms, person).Some? ==>
              SpouseOf(ms, person).value.gender == Male && SpouseOf(ms, person).value.spouse == Some(person.id)
    ensures person.gender == Female ==>
              (SpouseOf(ms, person).None? <==>
                 forall j :: 0 <= j < |ms| ==> !(ms[j].gender == Male && ms[j].spouse == Some(person.id)))
    ensures person.gender == Female && SpouseOf(ms, person).Some? ==>
              exists k :: 0 <= k < |ms| && ms[k] == SpouseOf(ms, person).value &&
                forall j :: 0 <= j < k ==> !(ms[j].gender == Male && ms[j].spouse == Some(person.id))
  {
  }

  function FatheredBy(id: string): Member -> bool {
    (c: Member) => c.father == Some(id)
  }

  /** The children gathered before deduplication (FamilyTree.tsx:76-84): through the
      father link only, of the person if male, else of the resolved husband. */
  function ChildSource(ms: seq<Member>, person: Member, spouse: Option<Member>): (r: seq<Member>)
    ensures forall c :: c in r ==> c in ms
  {
    if person.gender == Male then Filter(ms, FatheredBy(person.id))
    else if spouse.Some? then Filter(ms, FatheredBy(spouse.value.id))
    else []
  }

  /** Index `k` holds the first member of `s` with its id
      (`self.findIndex(c => c._id === child._id) === index`). */
  predicate FirstOfItsId(s: seq<Member>, k: int)
    requires 0 <= k < |s|
  {
    forall j :: 0 <= j < k ==> s[j].id != s[k].id
  }

  /** The deduplication filter of FamilyTree.tsx:87-91: no two kept members share an id,
      and every id of the input is kept. */
  function DedupById(s: seq<Member>): (r: seq<Member>)
    ensures forall x :: x in r ==> x in s
    ensures IdsOf(r) == IdsOf(s)
    ensures DistinctIds(r)
  {
    if s == [] then []
    else
      var init, last := s[..|s| - 1], s[|s| - 1];
      assert s == init + [last];
      var d := DedupById(init);
      IdsOfSnoc(init, last);
      if last.id in IdsOf(init) then d
      else
        IdsOfSnoc(d, last);
        assert forall k :: 0 <= k < |d| ==> d[k].id in IdsOf(init) by {
          forall k | 0 <= k < |d| ensures d[k].id in IdsOf(init) {
            assert d[k] in d;
          }
        }
        d + [last]
  }

  /** Exactly the members that come first with their id are kept. */
  lemma {:induction false} DedupKeepsFirsts(s: seq<Member>)
    ensures forall x :: x in DedupById(s) <==> exists k :: 0 <= k < |s| && s[k] == x && FirstOfItsId(s, k)
  {
    if s != [] {
      var init, last := s[..|s| - 1], s[|s| - 1];
      assert s == init + [last];
      DedupKeepsFirsts(init);
      assert forall k :: 0 <= k < |init| ==> (FirstOfItsId(s, k) <==> FirstOfItsId(init, k));
      assert FirstOfItsId(s, |s| - 1) <==> last.id !in IdsOf(init) by {
        if last.id in IdsOf(init) {
          var m :| m in init && m.id == last.id;
          var j :| 0 <= j < |init| && init[j] == m;
          assert s[j].id == s[|s| - 1].id;
        }
      }
      forall x ensures x in DedupById(s) <==> exists k :: 0 <= k < |s| && s[k] == x && FirstOfItsId(s, k) {
        if x in DedupById(s) && x !in DedupById(init) {
          assert s[|s| - 1] == x;
        }
        if exists k :: 0 <= k < |s| && s[k] == x && FirstOfItsId(s, k) {
          var k :| 0 <= k < |s| && s[k] == x && FirstOfItsId(s, k);
          if k < |init| {
            assert init[k] == x;
          }
        }
      }
    }
  }

  /** `r` is `s` with some entries left out, the rest in their order. */
  predicate Subsequence(r: seq<Member>, s: seq<Member>)
    decreases |s|
  {
    || r == []
    || (&& s != []
        && (|| (r[|r| - 1] == s[|s| - 1] && Subsequence(r[..|r| - 1], s[..|s| - 1]))
            || Subsequence(r, s[..|s| - 1])))
  }

  /** Deduplication keeps the input order: the kept members are a subsequence of the input. */
  lemma {:induction false} DedupInOrder(s: seq<Member>)
    ensures Subsequence(DedupById(s), s)
  {
    if s != [] {
      var init, last := s[..|s| - 1], s[|s| - 1];
      assert s == init + [last];
      DedupInOrder(init);
      var d := DedupById(init);
      if last.id !in IdsOf(init) {
        assert (d + [last])[..|d|] == d;
      }
    }
  }

  /** With distinct ids there is nothing to remove. */
  lemma {:induction false} DedupDistinct(s: seq<Member>)
    requires DistinctIds(s)
    ensures DedupById(s) == s
  {
    if s != [] {
      var init, last := s[..|s| - 1], s[|s| - 1];
      assert s == init + [last];
      DedupDistinct(init);
    }
  }

  /** The children list of a person, deduplicated and sorted, before expansion. */
  function SortedChildren(ms: seq<Member>, time: Timestamps, person: Member, spouse: Option<Member>): (r: seq<Member>)
    ensures forall c :: c in r ==> c in ChildSource(ms, person, spouse)
  {
    SortSameMembers(DedupById(ChildSource(ms, person, spouse)), time);
    SortByBirth(DedupById(ChildSource(ms, person, spouse)), time)
  }

  /** A daughter is shown as a leaf (FamilyTree.tsx:110-118). */
  function Leaf(ms: seq<Member>, child: Member, level: nat): TreeNode {
    TreeNode(child.id, child, OwnSpouse(ms, child), [], level)
  }

  // ---------------------------------------------------------------------------
  // buildTree

  lemma ShrinkUnvisited(all: set<string>, visited: set<string>, x: string)
    requires x in all && x !in visited
    ensures |all - (visited + {x})| == |all - visited| - 1
  {
    assert all - (visited + {x}) == (all - visited) - {x};
  }

  /** `buildTree(person, level, visited)` (FamilyTree.tsx:43-130). */
  function BuildTree(ms: seq<Member>, time: Timestamps, person: Member, level: nat,
                     visited: set<string>, processed: set<string>): (r: Built)
    requires person in ms
    ensures r.node.None? <==> person.id in visited
    ensures r.node.None? ==> r.processedAsSpouse == processed
    ensures r.node.Some? ==> r.node.value.member == person && r.node.value.id == person.id &&
                             r.node.value.level == level
    decreases |IdsOf(ms) - visited|, 0
  {
    if person.id in visited then Built(None, processed)
    else
      var newVisited := visited + {person.id};
      var spouse := SpouseOf(ms, person);
      var marked := if spouse.Some? then processed + {spouse.value.id} else processed;
      var kids := SortedChildren(ms, time, person, spouse);
      ShrinkUnvisited(IdsOf(ms), visited, person.id);
      var built := BuildChildren(ms, time, kids, level + 1, newVisited, marked);
      Built(Some(TreeNode(person.id, person, spouse, built.nodes, level)), built.processedAsSpouse)
  }

  /** `uniqueChildren.map(...).filter(node => node !== null)` (FamilyTree.tsx:103-121):
      sons are built recursively with the extended visited set, daughters become leaves;
      the calls run first to last, so the spouse set passes from each to the next. */
  function BuildChildren(ms: seq<Member>, time: Timestamps, kids: seq<Member>, level: nat,
                         visited: set<string>, processed: set<string>): (r: BuiltList)
    requires forall k :: k in kids ==> k in ms
    decreases |IdsOf(ms) - visited|, |kids|
  {
    if kids == [] then BuiltList([], processed)
    else if kids[0].gender == Male then
      var b := BuildTree(ms, time, kids[0], level, visited, processed);
      var rest := BuildChildren(ms, time, kids[1..], level, visited, b.processedAsSpouse);
      BuiltList((if b.node.Some? then [b.node.value] else []) + rest.nodes, rest.processedAsSpouse)
    else
      var rest := BuildChildren(ms, time, kids[1..], level, visited, processed);
      BuiltList([Leaf(ms, kids[0], level)] + rest.nodes, rest.processedAsSpouse)
  }

  // ---------------------------------------------------------------------------
  // generateTreeData

  /** `members.some(p => p._id !== member._id && member.idAyah === p._id)`. */
  predicate HasFatherIn(ms: seq<Member>, m: Member) {
    exists p :: p in ms && p.id != m.id && m.father == Some(p.id)
  }

  function IsRootIn(ms: seq<Member>): Member -> bool {
    (m: Member) => !HasFatherIn(ms, m) && m.gender == Male
  }

  /** The root filter (FamilyTree.tsx:133-138): men whose father is not another member. */
  function RootMembers(ms: seq<Member>): (r: seq<Member>)
    ensures forall m :: m in r <==> m in ms && m.gender == Male && !HasFatherIn(ms, m)
  {
    Filter(ms, IsRootIn(ms))
  }

  /** The roots in birth order (FamilyTree.tsx:141-149). */
  function SortedRoots(ms: seq<Member>, time: Timestamps): (r: seq<Member>)
    ensures forall m :: m in r <==> m in RootMembers(ms)
  {
    SortSameMembers(RootMembers(ms), time);
    SortByBirth(RootMembers(ms), time)
  }

  function NotIn(s: set<string>): Member -> bool {
    (m: Member) => m.id !in s
  }

  /** `sortedRoots.map(member => buildTree(member, 0)).filter(tree => tree !== null)`. */
  function BuildRoots(ms: seq<Member>, time: Timestamps, roots: seq<Member>, processed: set<string>): (r: BuiltList)
    requires forall m :: m in roots ==> m in ms
  {
    if roots == [] then BuiltList([], processed)
    else
      var b := BuildTree(ms, time, roots[0], 0, {}, processed);
      var rest := BuildRoots(ms, time, roots[1..], b.processedAsSpouse);
      BuiltList((if b.node.Some? then [b.node.value] else []) + rest.nodes, rest.processedAsSpouse)
  }

  /** `generateTreeData` (FamilyTree.tsx:33-158). The suppression filter of line 153 runs
      over the whole root list before the first `buildTree` call of line 154, so it sees
      `processedAsSpouse` while that set is still empty. */
  function GenerateTreeData(ms: seq<Member>, time: Timestamps): (r: Generated)
    ensures ms == [] ==> r.forest == []
    ensures RootMembers(ms) == [] ==> r.forest == []
  {
    if |ms| == 0 then Generated([], {})
    else
      var processedAsSpouse: set<string> := {};
      var sortedRoots := SortedRoots(ms, time);
      var candidates := Filter(sortedRoots, NotIn(processedAsSpouse));
      var built := BuildRoots(ms, time, candidates, processedAsSpouse);
      Generated(built.nodes, built.processedAsSpouse)
  }
}
