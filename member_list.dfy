/** The member table (src/components/MemberList.tsx): the name search, the parent
    names shown per row, the total and the empty state. */
module MemberList {
  import opened Lists
  import opened Members
  import DetailCard

  // ---------------------------------------------------------------------------
  // Case-insensitive search

  /** `toLowerCase` on one character, for the ASCII letters. */
  function LowerChar(c: char): (d: char)
    ensures 'A' <= c <= 'Z' ==> d as int == c as int + 32
    ensures !('A' <= c <= 'Z') ==> d == c
    ensures !('A' <= d <= 'Z')
  {
    if 'A' <= c <= 'Z' then (c as int + 32) as char else c
  }

  function Lower(s: string): (r: string)
    ensures |r| == |s|
    ensures forall i :: 0 <= i < |s| ==> r[i] == LowerChar(s[i])
  {
    seq(|s|, i requires 0 <= i < |s| => LowerChar(s[i]))
  }

  /** Lower-casing twice is lower-casing once. */
  lemma LowerIdempotent(s: string)
    ensures Lower(Lower(s)) == Lower(s)
  {
  }

  /** `hay.includes(needle)`: `needle` occurs in `hay` starting at some position. */
  function Includes(hay: string, needle: string): bool
    decreases |hay|
  {
    needle <= hay || (hay != [] && Includes(hay[1..], needle))
  }

  /** `needle` occurs in `hay` at position `i`. */
  predicate OccursAt(hay: string, needle: string, i: int) {
    0 <= i && i + |needle| <= |hay| && hay[i..i + |needle|] == needle
  }

  /** `Includes` finds exactly the occurrences at some position. */
  lemma {:induction false} IncludesIff(hay: string, needle: string)
    ensures Includes(hay, needle) <==> exists i :: OccursAt(hay, needle, i)
    decreases |hay|
  {
    if needle <= hay {
      assert OccursAt(hay, needle, 0);
    } else if hay != [] {
      IncludesIff(hay[1..], needle);
      if Includes(hay[1..], needle) {
        var i :| OccursAt(hay[1..], needle, i);
        assert hay[i + 1..i + 1 + |needle|] == hay[1..][i..i + |needle|];
        assert OccursAt(hay, needle, i + 1);
      }
      if exists i :: OccursAt(hay, needle, i) {
        var i :| OccursAt(hay, needle, i);
        if i > 0 {
          assert hay[1..][i - 1..i - 1 + |needle|] == hay[i..i + |needle|];
          assert OccursAt(hay[1..], needle, i - 1);
        }
      }
    }
  }

  /** The empty text occurs in every text. */
  lemma IncludesEmpty(hay: string)
    ensures Includes(hay, [])
  {
  }

  /** An occurrence of an occurrence is an occurrence. */
  lemma IncludesTransitive(a: string, b: string, c: string)
    requires Includes(a, b) && Includes(b, c)
    ensures Includes(a, c)
  {
    IncludesIff(a, b);
    IncludesIff(b, c);
    var i :| OccursAt(a, b, i);
    var j :| OccursAt(b, c, j);
    forall k | 0 <= k < |c| ensures a[i + j..i + j + |c|][k] == c[k] {
      assert c[k] == b[j + k];
      assert b[j + k] == a[i + j + k];
    }
    assert OccursAt(a, c, i + j);
    IncludesIff(a, c);
  }

  function NameMatches(term: string): Member -> bool {
    (m: Member) => Includes(Lower(m.name), Lower(term))
  }

  /** `filteredMembers` (MemberList.tsx:17-21), in list order. */
  function Search(ms: seq<Member>, term: string): (r: seq<Member>)
    ensures |r| <= |ms|
    ensures forall m :: m in r <==> m in ms && exists i :: OccursAt(Lower(m.name), Lower(term), i)
  {
    forall m | m in ms ensures NameMatches(term)(m) <==> exists i :: OccursAt(Lower(m.name), Lower(term), i) {
      IncludesIff(Lower(m.name), Lower(term));
    }
    Filter(ms, NameMatches(term))
  }

  /** An empty search keeps every member, in order. */
  lemma EmptySearchKeepsAll(ms: seq<Member>)
    ensures Search(ms, "") == ms
  {
    forall m | m in ms ensures NameMatches("")(m) {
      IncludesEmpty(Lower(m.name));
    }
    FilterKeepsAll(ms, NameMatches(""));
  }

  /** Typing more narrows the result: when the new term contains the old one (after
      lower-casing), every member the new term finds the old term found too. */
  lemma LongerTermNarrows(ms: seq<Member>, shorter: string, longer: string)
    requires Includes(Lower(longer), Lower(shorter))
    ensures forall m :: m in Search(ms, longer) ==> m in Search(ms, shorter)
  {
    forall m | m in Search(ms, longer) ensures m in Search(ms, shorter) {
      IncludesTransitive(Lower(m.name), Lower(longer), Lower(shorter));
    }
  }

  // ---------------------------------------------------------------------------
  // Parent names

  datatype ParentType = FatherParent | MotherParent

  /** `getParentName(member, parentType)` (MemberList.tsx:23-29). */
  function ParentName(ms: seq<Member>, member: Member, parentType: ParentType): (r: string)
    ensures var ref := if parentType == FatherParent then member.father else member.mother;
            && (!Truthy(ref) ==> r == "-")
            && (Truthy(ref) && ref.value !in IdsOf(ms) ==> r == "-")
            && (Truthy(ref) && ref.value in IdsOf(ms) ==> r == FindById(ms, ref.value).value.name)
  {
    var parentId := if parentType == FatherParent then member.father else member.mother;
    if !Truthy(parentId) then "-"
    else
      match FindById(ms, parentId.value)
      case Some(parent) => parent.name
      case None => "-"
  }

  /** The table names the same parent the detail card resolves. */
  lemma ParentNameMatchesCard(ms: seq<Member>, member: Member)
    ensures ParentName(ms, member, FatherParent) ==
            (match DetailCard.RelatedMember(ms, member.father) case Some(p) => p.name case None => "-")
    ensures ParentName(ms, member, MotherParent) ==
            (match DetailCard.RelatedMember(ms, member.mother) case Some(p) => p.name case None => "-")
  {
  }

  // ---------------------------------------------------------------------------
  // Total and empty state

  /** The total shown in the header (MemberList.tsx:38): the number of matches. */
  function Total(ms: seq<Member>, term: string): (n: nat)
    ensures n <= |ms|
    ensures n == |Search(ms, term)|
  {
    |Search(ms, term)|
  }

  lemma EmptySearchTotal(ms: seq<Member>)
    ensures Total(ms, "") == |ms|
  {
    EmptySearchKeepsAll(ms);
  }

  datatype EmptyNote = EmptyNote(title: string, text: string)

  /** The empty state (MemberList.tsx:155-165): shown when nothing matches, with the
      no-results wording for a non-empty term and the first-member prompt otherwise. */
  function EmptyState(ms: seq<Member>, term: string): (r: Option<EmptyNote>)
    ensures r.Some? <==> Search(ms, term) == []
    ensures r.Some? && term != "" ==> r.value.title == "Tidak ada hasil pencarian"
    ensures r.Some? && term == "" ==> r.value.title == "Belum ada anggota keluarga"
  {
    if |Search(ms, term)| != 0 then None
    else if term != "" then
      Some(EmptyNote("Tidak ada hasil pencarian", "Tidak ditemukan anggota dengan nama \"" + term + "\""))
    else
      Some(EmptyNote("Belum ada anggota keluarga", "Tambahkan anggota keluarga pertama untuk memulai"))
  }

  /** With no search term the empty state shows exactly when there are no members. */
  lemma EmptyStateWithoutTerm(ms: seq<Member>)
    ensures EmptyState(ms, "").Some? <==> ms == []
  {
    EmptySearchKeepsAll(ms);
  }

  /** The wording depends only on whether the term is empty: any two non-empty terms
      that find nothing show the same title. */
  lemma EmptyStateTitle(ms1: seq<Member>, t1: string, ms2: seq<Member>, t2: string)
    requires EmptyState(ms1, t1).Some? && EmptyState(ms2, t2).Some?
    requires (t1 == "") == (t2 == "")
    ensures EmptyState(ms1, t1).value.title == EmptyState(ms2, t2).value.title
  {
  }
}
