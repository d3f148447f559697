/** The derived data of the member detail card (src/components/DetailCard.tsx): the
    father, mother and spouse resolved from the member's references, the list of
    children, the formatted dates, the age and whether the card says that no family
    relation is recorded. */
module DetailCard {
  import opened Lists
  import opened Members
  import opened FamilyTree
  import BirthOrder
  import FamilyTreeProperties

  /** `getRelatedMember(id)` (DetailCard.tsx:15-18): nothing for an unset or empty
      reference, otherwise the first member carrying that id, or nothing when the
      reference dangles. */
  function RelatedMember(ms: seq<Member>, ref: Option<string>): (r: Option<Member>)
    ensures !Truthy(ref) ==> r == None
    ensures Truthy(ref) ==> (r.None? <==> ref.value !in IdsOf(ms))
    ensures r.Some? ==> r.value in ms && Some(r.value.id) == ref
    ensures r.Some? ==> exists k :: 0 <= k < |ms| && ms[k] == r.value &&
                          forall j :: 0 <= j < k ==> Some(ms[j].id) != ref
  {
    if !Truthy(ref) then None else FindById(ms, ref.value)
  }

  function IsChildOf(id: string): Member -> bool {
    (m: Member) => m.father == Some(id) || m.mother == Some(id)
  }

  /** The children list (DetailCard.tsx:24-26): the members whose father or mother
      reference is this member's id, in list order. */
  function ChildrenOf(ms: seq<Member>, member: Member): (r: seq<Member>)
    ensures forall c :: c in r <==> c in ms && (c.father == Some(member.id) || c.mother == Some(member.id))
  {
    Filter(ms, IsChildOf(member.id))
  }

  /** Every child the tree shows under a man is also on his detail card: the tree
      follows the father link only, the card either parent link. */
  lemma TreeChildrenOnCard(ms: seq<Member>, time: BirthOrder.Timestamps, p: Member, level: nat,
                           v: set<string>, processed: set<string>)
    requires p in ms && p.gender == Male && p.id !in v
    ensures forall c :: c in MembersOf(BuildTree(ms, time, p, level, v, processed).node.value.children) ==>
              c in ChildrenOf(ms, p)
  {
    FamilyTreeProperties.ManChildrenFacts(ms, time, p, level, v, processed);
  }

  /** `formatDate(dateString)` (DetailCard.tsx:28-35): nothing for an unset or empty
      text; otherwise the text the locale formatter `format` gives for it. */
  function FormatDate(dateString: Option<string>, format: string -> string): (r: Option<string>)
    ensures r.None? <==> !Truthy(dateString)
    ensures r.Some? ==> r.value == format(dateString.value)
  {
    if !Truthy(dateString) then None else Some(format(dateString.value))
  }

  /** A calendar date as `getFullYear`, `getMonth` (0-11) and `getDate` report it. */
  datatype CalendarDate = CalendarDate(year: int, month: int, day: int)

  /** `a` is not later than `b` on the calendar. */
  predicate NotLater(a: CalendarDate, b: CalendarDate) {
    a.year < b.year ||
    (a.year == b.year && (a.month < b.month || (a.month == b.month && a.day <= b.day)))
  }

  /** The date `n` years after `d`, written with the same month and day. */
  function YearsAfter(d: CalendarDate, n: int): CalendarDate {
    CalendarDate(d.year + n, d.month, d.day)
  }

  /** The end of the age span: the death date if one is set, otherwise today. */
  function EndDate(member: Member, calendar: string -> CalendarDate, today: CalendarDate): (e: CalendarDate)
    ensures Truthy(member.death) ==> e == calendar(member.death.value)
    ensures !Truthy(member.death) ==> e == today
  {
    if Truthy(member.death) then calendar(member.death.value) else today
  }

  /** `calculateAge()` (DetailCard.tsx:37-51): nothing without a birth date; otherwise
      the difference of the years, one less when the end's month and day come before
      the birth's. `calendar` reads a date text as `new Date` does. */
  function CalculateAge(member: Member, calendar: string -> CalendarDate, today: CalendarDate): (r: Option<int>)
    ensures r.None? <==> !Truthy(member.birth)
  {
    if !Truthy(member.birth) then None
    else
      var birthDate := calendar(member.birth.value);
      var endDate := EndDate(member, calendar, today);
      var age := endDate.year - birthDate.year;
      var monthDiff := endDate.month - birthDate.month;
      if monthDiff < 0 || (monthDiff == 0 && endDate.day < birthDate.day) then Some(age - 1) else Some(age)
  }

  /** The age counts completed years: the `age`-th anniversary of the birth is not later
      than the end date, and the next anniversary is later. */
  lemma AgeCountsCompletedYears(member: Member, calendar: string -> CalendarDate, today: CalendarDate)
    requires Truthy(member.birth)
    ensures var age := CalculateAge(member, calendar, today).value;
            var birthDate := calendar(member.birth.value);
            var endDate := EndDate(member, calendar, today);
            NotLater(YearsAfter(birthDate, age), endDate) && !NotLater(YearsAfter(birthDate, age + 1), endDate)
  {
  }

  /** At most one number of years has that property, so the age is determined by it. */
  lemma CompletedYearsUnique(birth: CalendarDate, end: CalendarDate, n: int, k: int)
    requires NotLater(YearsAfter(birth, n), end) && !NotLater(YearsAfter(birth, n + 1), end)
    requires NotLater(YearsAfter(birth, k), end) && !NotLater(YearsAfter(birth, k + 1), end)
    ensures n == k
  {
  }

  /** The card's "no relations recorded" note (DetailCard.tsx:20-22,212): no father,
      mother or spouse resolves and the children list is empty. */
  predicate ShowsNoRelations(ms: seq<Member>, member: Member) {
    && RelatedMember(ms, member.father).None?
    && RelatedMember(ms, member.mother).None?
    && RelatedMember(ms, member.spouse).None?
    && |ChildrenOf(ms, member)| == 0
  }

  /** A reference resolves when it is set, not empty and names a member of the list. */
  predicate Resolves(ms: seq<Member>, ref: Option<string>) {
    Truthy(ref) && ref.value in IdsOf(ms)
  }

  /** The note shows exactly when none of the three references resolves and no member
      names this one as father or mother. */
  lemma NoRelationsExactly(ms: seq<Member>, member: Member)
    ensures ShowsNoRelations(ms, member) <==>
              && !Resolves(ms, member.father)
              && !Resolves(ms, member.mother)
              && !Resolves(ms, member.spouse)
              && forall c :: c in ms ==> c.father != Some(member.id) && c.mother != Some(member.id)
  {
    var kids := ChildrenOf(ms, member);
    if |kids| != 0 {
      assert kids[0] in kids;
    }
  }
}
