# Family tree: a Dafny model of the lineage builder and its components

This project models the family-tree web application's core. The centre is the
patrilineal tree builder `generateTreeData` and its nested `buildTree`
(`src/components/FamilyTree.tsx`). The builder turns the flat list of family-member
records into an ordered forest of tree nodes:

- **Roots** are the men with no other member as father, sorted by birth date.
- **Spouses** come from a man's own spouse reference, looked up in an id map.
- **Children** are gathered through the father link, deduplicated by id and sorted.
- **Expansion:** sons are expanded recursively and daughters become leaves.
- **Cycles** are cut by a per-branch copy of the visited set.
- **Spouse set:** the shared `processedAsSpouse` set records every spouse a man's node shows. The model threads it explicitly: every build function takes the set and returns it updated.

Next to the builder, the model covers the pure helpers of three components:

- **Detail card** (`DetailCard.tsx`): the related-member lookups, the children list, the date formatting, the age, and the "no relations" note.
- **Add/edit dialog** (`MemberModal.tsx`):
  - the form record, modelled as a class whose two updates replace it;
  - the record sent on submit;
  - the request URL and method;
  - the father, mother and spouse candidate lists.
- **Member table** (`MemberList.tsx`): the case-insensitive name search, the parent names, the total and the empty state.

Modules:

- `Lists`: `filter` and `find`.
- `Members`: the record, `find` by id, and the `new Map` lookup.
- `BirthOrder`: the birth-date sort.
- `FamilyTree`: the builder.
- `FamilyTreeProperties`: what the builder guarantees.
- `FamilyTreeExamples`: root selection and small worked families.
- `ForestUniqueness`: no member is shown twice in the forest.
- `SpouseSuppression`: the finding below.
- `DetailCard`, `MemberModal`, `MemberList`: the three components.

Modelling choices:

- **Record keys.** The record's Indonesian keys are rendered in English: `namaLengkap` is `name`, `jenisKelamin` is `gender`, `tanggalLahir` is `birth`, `idAyah` is `father`, `idIbu` is `mother`, `idPasangan` is `spouse`, and so on.
- **Optional fields.** An optional field is an `Option<string>`. JavaScript truthiness of such a field ("set and not empty") is the predicate `Truthy`.
- **Dates are parameters.**
  - The timestamp `new Date(text).getTime()` is a parameter `time: string -> Option<int>`, where `None` stands for NaN.
  - The calendar reading used by the age is a parameter `string -> CalendarDate`.
  - "Today" is a parameter.
- **Sort order.** The sort comparator returns 0 whenever either side is undated, so it is not a consistent order and the engine's result is not fixed by it. The model uses one concrete stable insertion sort and proves three things about it for every input:
  - it is a permutation of its input;
  - the dated members come out in ascending birth order;
  - members with the same birth time, or with none, keep their input order.

  When every member is dated, this is the stable sort.
- **Lookups by id.** Both lookups are modelled as written:
  - `new Map(...)` keeps the LAST member with an id;
  - `find` returns the FIRST.

  With distinct ids the two agree (`Members.MapGetIsFind`).

Two places where the code does less than its own branches and comments suggest:

- **Spouse resolution.** `buildTree` has a branch for women that searches for a husband from the wife's side (FamilyTree.tsx:60-68), and a branch that takes a woman's children from her husband (lines 81-83). Neither is ever reached, because `buildTree` is only entered for men: the roots (line 137) and sons (lines 105-107). A man's spouse therefore comes only from his OWN spouse reference (lines 58-59). A marriage recorded only on the wife's record shows no spouse on the husband's node (`FamilyTreeExamples.WifeSideMarriageNotShown`).
- **Root suppression.** The comment at FamilyTree.tsx:151 says that roots already processed as spouses are excluded. The filter that should do this never drops a root (see Findings).

## Model

| member | source | states |
|---|---|---|
| `Lists.Filter` | src/components/FamilyTree.tsx:80 | `Array.prototype.filter` keeps exactly the elements satisfying the test, and is no longer than its input; `Lists.FilterCons` fixes the order |
| `Lists.FilterCons` | src/components/FamilyTree.tsx:80 | filtering a list with a head keeps the head first exactly when it passes, followed by the filtered tail |
| `Lists.FindIndex` | src/components/FamilyTree.tsx:90 | `findIndex` is -1 exactly when no element passes, otherwise the first passing index |
| `Lists.Find` | src/components/DetailCard.tsx:17 | `find` is absent exactly when no element passes, otherwise the element at the first passing index |
| `Members.GenderText` | src/types/index.ts:4 | the record's gender is one of the two texts `Laki-laki` (male) and `Perempuan` (female), and the male text belongs to exactly the male gender |
| `Members.FindById` | src/components/DetailCard.tsx:17 | `find` by id is absent exactly when no member has the id; otherwise it is a member of the list with that id, and no earlier member has it |
| `Members.MemberMap` | src/components/FamilyTree.tsx:39 | the id map has exactly the ids of the list as keys, each mapped to a list member with that id |
| `Members.MemberMapKeepsLast` | src/components/FamilyTree.tsx:39 | the map holds the last member carrying each id: no later entry of the list has that id |
| `Members.MapGet` | src/components/FamilyTree.tsx:59 | `memberMap.get(id)` is absent exactly when no member has the id, otherwise a list member with that id |
| `Members.MapGetIsFind` | src/components/FamilyTree.tsx:39 | when ids are distinct, the map lookup and `find` return the same member |
| `BirthOrder.SortByBirth` | src/components/FamilyTree.tsx:92-100 | the sort is a permutation of its input (same multiset), and among dated members birth times never decrease (model sort; see Left out) |
| `BirthOrder.SortStable` | src/components/FamilyTree.tsx:141-149 | for each birth time (or none), the members with that time keep their input order: the sort is stable |
| `BirthOrder.SortSameMembers` | src/components/FamilyTree.tsx:141 | the sorted list holds exactly the members of the input |
| `BirthOrder.AllDatedSorted` | src/components/FamilyTree.tsx:142-146 | when every member is dated, the sorted list is in ascending birth order throughout |
| `BirthOrder.InsertStable` | src/components/FamilyTree.tsx:92-100 | inserting into an ascending list keeps each birth-time group in order and puts the new member after its equals |
| `FamilyTree.OwnSpouse` | src/components/FamilyTree.tsx:113-115 | a daughter leaf's spouse is absent when her reference is unset or empty; otherwise present exactly when the reference names a member, and then it is that member |
| `FamilyTree.SpouseOf` | src/components/FamilyTree.tsx:56-68 | `buildTree`'s spouse is always a member of the list |
| `FamilyTree.SpouseResolution` | src/components/FamilyTree.tsx:56-68 | for a man the spouse is exactly what his own spouse reference resolves to; for a woman it is absent exactly when no man's spouse reference is her id, and otherwise it is the FIRST man in the list whose spouse reference is her id (`find`) |
| `FamilyTree.ChildSource` | src/components/FamilyTree.tsx:75-84 | every gathered child is a member of the list |
| `FamilyTree.DedupById` | src/components/FamilyTree.tsx:87-91 | the deduplicated children keep every id of the input and no id twice, and are all input members |
| `FamilyTree.DedupKeepsFirsts` | src/components/FamilyTree.tsx:87-91 | deduplication keeps exactly the members at the first index carrying their id |
| `FamilyTree.DedupInOrder` | src/components/FamilyTree.tsx:87-91 | the kept members appear in their input order: the result is a subsequence of the input |
| `FamilyTree.DedupDistinct` | src/components/FamilyTree.tsx:87-91 | a list without repeated ids passes deduplication unchanged |
| `FamilyTree.SortedChildren` | src/components/FamilyTree.tsx:86-100 | the sorted unique children are all gathered children |
| `FamilyTree.Leaf` | src/components/FamilyTree.tsx:110-118 | a daughter's node: her id and record, the spouse her own reference resolves to, no children, one level below her father. No ensures; `FamilyTreeProperties.ChildrenMembers` and `FamilyTreeProperties.ChildListShaped` state what it contributes |
| `FamilyTree.BuildChildren` | src/components/FamilyTree.tsx:103-121 | the `map` over the unique children and the `filter` of nulls. No ensures; its partner lemmas `FamilyTreeProperties.ChildrenMembers`, `FamilyTreeProperties.ChildrenMarkTheirSpouses`, `FamilyTreeProperties.ChildrenIgnoreSpouseSet` and `FamilyTreeProperties.ChildListShaped` state which nodes it gives, what it marks, that it ignores the spouse set, and their shape |
| `FamilyTree.BuildTree` | src/components/FamilyTree.tsx:43-130 | `buildTree` returns null exactly when the person's id is already visited, leaving the spouse set alone then; otherwise the node shows the person, with the person's id, at the given level |
| `FamilyTree.HasFatherIn` | src/components/FamilyTree.tsx:134-136 | `some` over the members: another member (different id) has the id the father reference names. No ensures; `FamilyTree.RootMembers` and `FamilyTreeExamples.FatherlessManIsRoot` state its use |
| `FamilyTree.RootMembers` | src/components/FamilyTree.tsx:132-138 | a member is a root exactly when male and no OTHER member's id equals his father reference |
| `FamilyTree.SortedRoots` | src/components/FamilyTree.tsx:140-149 | the sorted roots are exactly the root members |
| `FamilyTree.GenerateTreeData` | src/components/FamilyTree.tsx:33-37 | an empty member list, and more generally a list without roots, gives an empty forest |
| `FamilyTreeProperties.TreeIgnoresSpouseSet` | src/components/FamilyTree.tsx:71-73 | the node `buildTree` returns does not depend on the spouse set: the set is written during the build, never read |
| `FamilyTreeProperties.ChildrenIgnoreSpouseSet` | src/components/FamilyTree.tsx:103-121 | the same for a list of child nodes |
| `FamilyTreeProperties.TreeMarksItsSpouses` | src/components/FamilyTree.tsx:71-73 | `buildTree` adds exactly the spouses of the nodes it builds, daughters' spouses excepted, to `processedAsSpouse` |
| `FamilyTreeProperties.ChildrenMarkTheirSpouses` | src/components/FamilyTree.tsx:103-121 | building the child nodes adds exactly the spouses marked by the sons' subtrees |
| `FamilyTreeProperties.ChildrenMembers` | src/components/FamilyTree.tsx:103-121 | the child nodes show exactly the daughters and the unvisited sons, in the order of the children list (null results dropped) |
| `FamilyTreeProperties.ManChildren` | src/components/FamilyTree.tsx:80-107 | a man's child nodes are his children through the father link, deduplicated and sorted by birth, minus sons already visited on the branch |
| `FamilyTreeProperties.ManChildrenFacts` | src/components/FamilyTree.tsx:80-100 | every child node of a man has his id as father reference; the dated ones are in ascending birth order (model sort); every member fathered by him is shown unless already visited on the branch |
| `FamilyTreeProperties.FilterAscending` | src/components/FamilyTree.tsx:121 | dropping nodes from an ascending list keeps it ascending |
| `FamilyTreeProperties.ManTreeShaped` | src/components/FamilyTree.tsx:43-130 | a man's tree has the full shape: levels grow by one from parent to child; each node shows a member, under his id, with the spouse of the member's own reference; daughters are leaves; no man's id repeats one of his ancestors'; each child's father reference is its parent's id |
| `FamilyTreeProperties.ChildListShaped` | src/components/FamilyTree.tsx:103-121 | the same for each node of a children list |
| `FamilyTreeProperties.ManTreeDepth` | src/components/FamilyTree.tsx:49-54 | with distinct ids, a man's tree has no more levels than the number of ids not yet visited |
| `FamilyTreeProperties.ChildListDepth` | src/components/FamilyTree.tsx:103-121 | the same bound for every node of a children list |
| `FamilyTree.BuildRoots` | src/components/FamilyTree.tsx:154-155 | the `map` of `buildTree` over the roots, threading the spouse set, and the `filter` of nulls. No ensures; `FamilyTreeProperties.BuildRootsOnePerRoot` and `FamilyTreeProperties.BuildRootsMarks` state its result |
| `FamilyTreeProperties.BuildRootsOnePerRoot` | src/components/FamilyTree.tsx:154-155 | building a list of roots gives one tree per root, in order, each being what `buildTree` gives for that root alone with empty sets |
| `FamilyTreeProperties.BuildRootsMarks` | src/components/FamilyTree.tsx:154 | building the roots adds exactly the spouses their trees mark |
| `FamilyTreeProperties.OneTreePerRoot` | src/components/FamilyTree.tsx:152-155 | the suppression filter sees an empty set, so the forest has exactly one tree per sorted root, in order, each `buildTree(root, 0)` |
| `FamilyTreeProperties.ForestMarks` | src/components/FamilyTree.tsx:40 | the final `processedAsSpouse` holds exactly the spouses marked by the forest's trees |
| `FamilyTreeProperties.ForestTree` | src/components/FamilyTree.tsx:154 | the forest's i-th tree is `buildTree` of the i-th sorted root, a male member of the list |
| `FamilyTreeProperties.ForestRoots` | src/components/FamilyTree.tsx:152-155 | the forest's roots in order are the sorted root candidates, all at level 0 |
| `FamilyTreeProperties.RootsInBirthOrder` | src/components/FamilyTree.tsx:141-149 | the forest's dated roots are in ascending birth order (model sort), and roots with equal (or no) birth time keep their input order |
| `FamilyTreeProperties.ForestShaped` | src/components/FamilyTree.tsx:103-129 | every tree of the forest has the shape above, rooted at level 0 |
| `FamilyTreeProperties.ManNotOwnChild` | src/components/FamilyTree.tsx:49-54 | no man is listed among his own children, even when he is recorded as his own father |
| `FamilyTreeProperties.RootNotOwnChild` | src/components/FamilyTree.tsx:49-54 | no root of the forest is listed among his own children |
| `FamilyTreeProperties.RootTreeDepth` | src/components/FamilyTree.tsx:49-54 | with distinct ids, a root's tree has at most as many levels as there are ids |
| `FamilyTreeProperties.ForestDepth` | src/components/FamilyTree.tsx:49-54 | with distinct ids, no tree of the forest has more levels than there are ids, however the father references loop |
| `FamilyTreeExamples.FatherlessManIsRoot` | src/components/FamilyTree.tsx:133-138 | a man with an unset, dangling or self-referencing father reference is a root |
| `FamilyTreeExamples.FatherCycleDrawsNothing` | src/components/FamilyTree.tsx:133-138 | two men recorded as each other's father give an empty forest |
| `FamilyTreeExamples.SelfFatheredIsLoneRoot` | src/components/FamilyTree.tsx:49-54 | a man recorded as his own father is drawn as a single root with no children |
| `FamilyTreeExamples.WifeSideMarriageNotShown` | src/components/FamilyTree.tsx:58-59 | a marriage recorded only on the wife's record shows no spouse on the husband's tree |
| `ForestUniqueness.WithIdOfMember` | src/components/FamilyTree.tsx:39 | with distinct ids, looking up a member's own id finds that member |
| `ForestUniqueness.ClimbsToOneRoot` | src/components/FamilyTree.tsx:133-138 | following father references from a member stops at the first root member: two climbs from the same member that each end at a root, passing none before, have the same length and end at the same root |
| `ForestUniqueness.ChildNotRoot` | src/components/FamilyTree.tsx:80-107 | a child node's member has its parent node's member as father, and is not a root member (a man never becomes his own child, lines 49-54) |
| `ForestUniqueness.ShapedLinked` | src/components/FamilyTree.tsx:43-130 | with distinct ids, every child node of a built tree is one level down, fathered by its parent node's member, and not a root member |
| `ForestUniqueness.Anchor` | src/components/FamilyTree.tsx:43-130 | every node of a tree lies at or below its top, and climbing as many father references as it lies below reaches the tree's top member, passing no root member |
| `ForestUniqueness.RootTreeLevelFixed` | src/components/FamilyTree.tsx:137-155 | in a tree topped by a root member, two nodes showing the same member sit at the same level |
| `ForestUniqueness.ManTreeDistinctSiblings` | src/components/FamilyTree.tsx:87-91 | every node of a man's tree has children with distinct ids, because they come from the deduplicated children list |
| `ForestUniqueness.ChildListDistinctSiblings` | src/components/FamilyTree.tsx:103-121 | the same for each node of a children list |
| `ForestUniqueness.FilterKeepsDistinctIds` | src/components/FamilyTree.tsx:137 | filtering a list with distinct ids keeps them distinct |
| `ForestUniqueness.SortKeepsDistinctIds` | src/components/FamilyTree.tsx:141-149 | sorting a list with distinct ids keeps them distinct |
| `ForestUniqueness.RootsDistinct` | src/components/FamilyTree.tsx:133-149 | with distinct ids, the sorted roots have distinct ids |
| `ForestUniqueness.SiblingsApart` | src/components/FamilyTree.tsx:87-121 | nodes under two different siblings show different members when same-member nodes share a level |
| `ForestUniqueness.TreeUnique` | src/components/FamilyTree.tsx:43-130 | a tree whose same-member nodes share a level and whose siblings have distinct ids shows no member twice |
| `ForestUniqueness.TreesApart` | src/components/FamilyTree.tsx:152-155 | nodes of two different trees of a list of root trees show different members |
| `ForestUniqueness.RootTreesUnique` | src/components/FamilyTree.tsx:152-155 | a list of root trees with distinct root ids shows no member at two nodes |
| `ForestUniqueness.ForestMembersUnique` | src/components/FamilyTree.tsx:33-155 | with distinct ids, no member is shown at two nodes anywhere in the forest, however the father references loop |
| `SpouseSuppression.GenerateTreeDataSuppressing` | src/components/FamilyTree.tsx:151-155 | the corrected builder: an empty member list gives an empty forest; `SpouseSuppression.NoRootRedrawnAsSpouse` states what the correction achieves |
| `SpouseSuppression.AsWrittenRedrawsSpouse` | src/components/FamilyTree.tsx:152-155 | on the two-man input, the as-written builder marks "b" as a spouse and still draws a tree for "b" |
| `SpouseSuppression.BuildRootsSuppressing` | src/components/FamilyTree.tsx:151-155 | the corrected root loop never loses spouse marks and draws at most one tree per root |
| `SpouseSuppression.SuppressingMarks` | src/components/FamilyTree.tsx:151-155 | the corrected loop's final spouse set is the starting set plus the spouses its trees mark |
| `SpouseSuppression.SuppressingSkipsMarked` | src/components/FamilyTree.tsx:151-155 | the corrected loop draws no tree for a man already marked as a spouse by the starting set or an earlier tree |
| `SpouseSuppression.SuppressingBuildsRoots` | src/components/FamilyTree.tsx:154 | every tree of the corrected loop is `buildTree` of one of the roots |
| `SpouseSuppression.SuppressingCoversRoots` | src/components/FamilyTree.tsx:151-155 | every root of the corrected loop is drawn or marked as a spouse |
| `SpouseSuppression.NoRootRedrawnAsSpouse` | src/components/FamilyTree.tsx:151-155 | in the corrected forest no tree belongs to a man an earlier tree shows as a spouse, and every root candidate is drawn or marked |
| `SpouseSuppression.SuppressingDrawsSpouseOnce` | src/components/FamilyTree.tsx:152-155 | on the two-man input the corrected builder draws only "a", whose tree marks "b" |
| `DetailCard.RelatedMember` | src/components/DetailCard.tsx:15-18 | an unset or empty reference gives nothing; otherwise the first member with that id, or nothing when it dangles |
| `DetailCard.ChildrenOf` | src/components/DetailCard.tsx:24-26 | the children list holds exactly the members whose father or mother reference is this member's id |
| `DetailCard.TreeChildrenOnCard` | src/components/DetailCard.tsx:24-26 | every child the tree shows under a man also appears on his detail card |
| `DetailCard.FormatDate` | src/components/DetailCard.tsx:28-35 | a missing or empty date text gives null; otherwise the formatter's text for it |
| `DetailCard.EndDate` | src/components/DetailCard.tsx:41 | the age runs to the death date when one is set, otherwise to today |
| `DetailCard.CalculateAge` | src/components/DetailCard.tsx:37-38 | there is an age exactly when a birth date is set |
| `DetailCard.AgeCountsCompletedYears` | src/components/DetailCard.tsx:40-48 | the age counts completed years: the age-th anniversary is not later than the end date and the next one is |
| `DetailCard.CompletedYearsUnique` | src/components/DetailCard.tsx:43-48 | at most one number of years is a completed-years count, so it fixes the age |
| `DetailCard.ShowsNoRelations` | src/components/DetailCard.tsx:212 | the note's condition: no father, mother or spouse found and no children. No ensures; `DetailCard.NoRelationsExactly` states when it holds |
| `DetailCard.NoRelationsExactly` | src/components/DetailCard.tsx:212 | the "no relations" note shows exactly when no father, mother or spouse reference resolves and no member names this one as father or mother |
| `MemberModal.EmptyForm` | src/components/MemberModal.tsx:15-27 | a new form has every input empty and gender `Laki-laki` |
| `MemberModal.BeforeFirstT` | src/components/MemberModal.tsx:36-37 | `split('T')[0]` is the longest prefix without `'T'`: a prefix, free of `'T'`, and followed by `'T'` unless it is the whole text |
| `MemberModal.OrEmpty` | src/components/MemberModal.tsx:38-44 | `value \|\| ''` is the value when set and non-empty, `''` otherwise |
| `MemberModal.DateInput` | src/components/MemberModal.tsx:36-37 | a date input holds the date part of a set date and `''` otherwise |
| `MemberModal.EditForm` | src/components/MemberModal.tsx:33-45 | the edit form takes the name, the gender text, the date parts of the dates and every other text, with unset texts as `''` |
| `MemberModal.SetField` | src/components/MemberModal.tsx:94-97 | changing an input sets exactly that input and leaves every other input as it was |
| `MemberModal.SetOverrides` | src/components/MemberModal.tsx:94-97 | a later change of the same input overrides an earlier one |
| `MemberModal.SetsCommute` | src/components/MemberModal.tsx:94-97 | changes of two different inputs commute |
| `MemberModal.SetSameValue` | src/components/MemberModal.tsx:94-97 | writing back an input's own value changes nothing |
| `MemberModal.MemberForm.constructor` | src/components/MemberModal.tsx:15-27 | the dialog starts with the empty form |
| `MemberModal.MemberForm.LoadMember` | src/components/MemberModal.tsx:31-47 | the form becomes the edit form of the member when one is being edited, and is unchanged otherwise |
| `MemberModal.MemberForm.HandleChange` | src/components/MemberModal.tsx:94-97 | the named input takes the new value; every other input keeps its own |
| `MemberModal.NullIfEmpty` | src/components/MemberModal.tsx:64-69 | `text \|\| null` is null exactly for the empty text, otherwise the text |
| `MemberModal.Submit` | src/components/MemberModal.tsx:62-70 | the sent record maps the three reference inputs and the two date inputs to null when empty and keeps every other input unchanged |
| `MemberModal.NullIfEmptyRoundTrip` | src/components/MemberModal.tsx:62-70 | reading a sent value back into an input restores the input's text |
| `MemberModal.BeforeFirstTNoT` | src/components/MemberModal.tsx:36 | a date text without `'T'` is its own date part |
| `MemberModal.EditThenSubmit` | src/components/MemberModal.tsx:33-70 | saving an unedited member sends the name and gender text; each reference as stored when set and not empty, null otherwise; each date's part before its first `'T'`, null when that part is empty or the date is unset; the other texts as stored, `''` when unset |
| `MemberModal.BeforeFirstTOfTimestamp` | src/components/MemberModal.tsx:36-37 | the date part of a timestamp text `date + "T" + clock` is `date` |
| `MemberModal.TimestampSubmitsItsDate` | src/components/MemberModal.tsx:36-37 | a date stored as an ISO timestamp `date + "T" + clock` is sent back as its date part `date` (null when empty) |
| `MemberModal.EditThenSubmitPlain` | src/components/MemberModal.tsx:33-70 | references stored unset or non-empty, and dates stored without a time part, are sent back unchanged |
| `MemberModal.RequestTarget` | src/components/MemberModal.tsx:55-59 | editing sends `PUT` to `/api/family-members/<id>`; adding sends `POST` to `/api/family-members` |
| `MemberModal.EditTargetsDistinct` | src/components/MemberModal.tsx:55-57 | edits of different members go to different URLs, never to the collection URL |
| `MemberModal.AvailableFathers` | src/components/MemberModal.tsx:100-102 | the father candidates are exactly the men other than the edited member |
| `MemberModal.AvailableMothers` | src/components/MemberModal.tsx:103-105 | the mother candidates are exactly the women other than the edited member |
| `MemberModal.AvailableSpouses` | src/components/MemberModal.tsx:106-108 | the spouse candidates are exactly the members of another gender text than the form's, other than the edited member, without a spouse reference |
| `MemberModal.ParentCandidatesPartition` | src/components/MemberModal.tsx:100-105 | every member but the edited one is offered as exactly one of father and mother; the edited member as neither |
| `MemberModal.SpouseCandidatesOppositeSex` | src/components/MemberModal.tsx:103-108 | for a man's form the spouse candidates are the unmarried mother candidates in order; for a woman's, the unmarried father candidates |
| `MemberModal.SpouseCandidatesUnknownGender` | src/components/MemberModal.tsx:106-108 | a gender text outside the two excludes nobody by gender |
| `MemberList.LowerChar` | src/components/MemberList.tsx:19 | lower-casing maps `A`-`Z` to `a`-`z`, leaves every other character, and never yields an upper-case letter |
| `MemberList.Lower` | src/components/MemberList.tsx:19 | `toLowerCase` keeps the length and lower-cases each character |
| `MemberList.LowerIdempotent` | src/components/MemberList.tsx:19 | lower-casing twice is lower-casing once |
| `MemberList.Includes` | src/components/MemberList.tsx:19 | `String.prototype.includes`. No ensures; `MemberList.IncludesIff`, `MemberList.IncludesEmpty` and `MemberList.IncludesTransitive` state it |
| `MemberList.IncludesIff` | src/components/MemberList.tsx:19 | `includes` holds exactly when the term occurs at some position of the name |
| `MemberList.IncludesEmpty` | src/components/MemberList.tsx:19 | the empty term occurs in every name |
| `MemberList.IncludesTransitive` | src/components/MemberList.tsx:19 | an occurrence within an occurrence is an occurrence |
| `MemberList.Search` | src/components/MemberList.tsx:17-21 | the search keeps exactly the members whose lower-cased name contains the lower-cased term |
| `MemberList.EmptySearchKeepsAll` | src/components/MemberList.tsx:17-21 | an empty term keeps every member, in order |
| `MemberList.LongerTermNarrows` | src/components/MemberList.tsx:17-21 | a term containing another finds only members the other finds |
| `MemberList.ParentName` | src/components/MemberList.tsx:23-29 | the parent name is `-` for an unset, empty or dangling reference, otherwise the name of the first member with that id |
| `MemberList.ParentNameMatchesCard` | src/components/MemberList.tsx:23-29 | the table names the same parent that the detail card resolves |
| `MemberList.Total` | src/components/MemberList.tsx:38 | the total is the number of matches, at most the number of members |
| `MemberList.EmptySearchTotal` | src/components/MemberList.tsx:38 | with no term the total is the number of members |
| `MemberList.EmptyState` | src/components/MemberList.tsx:155-165 | the empty state shows exactly when nothing matches; its title is the no-results title for a non-empty term and the first-member prompt otherwise |
| `MemberList.EmptyStateWithoutTerm` | src/components/MemberList.tsx:155-165 | with no term the empty state shows exactly when there are no members |
| `MemberList.EmptyStateTitle` | src/components/MemberList.tsx:158-160 | the title depends only on whether the term is empty |

## Left out

- Rendering is not modelled: the JSX, node cards, connectors, gaps, name truncation and pan/zoom (FamilyTree.tsx:160-338), and the markup of the other components. It is presentation only.
- React plumbing is not modelled: `useState`, `useEffect`, `useMemo` and `setTreeData`. `generateTreeData` is modelled as returning the forest and the final spouse set.
- I/O is not modelled: the `fetch` calls and the response handling of `handleSubmit` (MemberModal.tsx:72-91), the page component, the API route handlers and the database schema. The schema is configuration of a library that is not part of this model.
- Date parsing, timezones and `toLocaleDateString` are parameters (`time`, `calendar`, `format`, `today`). A date text that does not parse gives an Invalid Date in JavaScript, and then a NaN age; that case is not modelled for the age.
- Lower-casing covers ASCII letters only. Unicode case mapping is not modelled.
- The `TreeNode` type of `src/types/index.ts:18-29` is not used by the builder and is not modelled. The layout coordinates `x` and `y` of the builder's own node type are never set by the builder and are left out.
- The record's `createdAt` and `updatedAt` fields are not read by the modelled code and are left out.
- `ConfirmModal` is not part of this model.
- `BirthOrder.SortByBirth`: the model sort is one stable insertion sort, and its "dated members ascend" holds for that sort only. `Array.prototype.sort` with this comparator need not give it. The comparator returns 0 whenever either side is undated, so on `[d5, undated, d3]` (d5 born later than d3) both neighbour pairs compare equal. A sort that detects runs (as TimSort does) or an insertion sort that compares neighbours leaves that list unchanged, with d5 before d3; the model gives `[d3, d5, undated]`. The same reservation applies to the ascending-order clauses of `FamilyTreeProperties.RootsInBirthOrder` and `FamilyTreeProperties.ManChildrenFacts`: on a mix of dated and undated members the program may show dated roots or children out of birth order. What holds for any engine is narrower: when every member is dated the comparator is a consistent order, so the list comes out ascending (`BirthOrder.AllDatedSorted`) with equal birth times in input order (`BirthOrder.SortStable`), since the sort is required to be stable.
- `MemberModal.EditForm`: the `'Laki-laki'` fallback for a missing gender (MemberModal.tsx:35) is not modelled, because the record's gender is always one of the two texts.
- `MemberModal.SetField`: an input name outside the eleven form fields would add a new key to the form. The dialog renders no such input, so it is not modelled.
- `FamilyTreeProperties.ForestDepth`: the depth bound is proved for lists with distinct ids, which is what the record store guarantees. Without distinct ids the bound is not claimed.

## Findings

| source | as written | input that shows it | evidently intended | confidence | as-written member | corrected member |
|---|---|---|---|---|---|---|
| src/components/FamilyTree.tsx:152-155 | `.filter(m => !processedAsSpouse.has(m._id))` runs over the whole root list before the first `buildTree` call of `.map`, so it sees an empty set and never drops a root | two fatherless, undated men: `a` with spouse reference `b`, and `b`. Building `a`'s tree marks `b`, and `b` still gets his own tree | a root already shown as an earlier tree's spouse gets no tree of his own: the set is consulted as each root comes up | high; not executed | `SpouseSuppression.AsWrittenRedrawsSpouse` | `SpouseSuppression.GenerateTreeDataSuppressing`, `SpouseSuppression.NoRootRedrawnAsSpouse` |

`FamilyTree.GenerateTreeData` stays the as-written builder, because it is what the program does. `SpouseSuppression.GenerateTreeDataSuppressing` is the corrected builder. Both are built from the same `buildTree` model.
