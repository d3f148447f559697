/** The add/edit dialog (src/components/MemberModal.tsx): the form record and its two
    updates (loading the edited member, changing one input), the record sent to the
    server, the request target, and the candidate lists offered for father, mother
    and spouse. */
module MemberModal {
  import opened Lists
  import opened Members

  /** The form state: every input holds a string; `gender` holds the selected text. */
  datatype FormData = FormData(
    name: string,
    gender: string,
    birth: string,
    death: string,
    birthPlace: string,
    occupation: string,
    bio: string,
    photo: string,
    father: string,
    mother: string,
    spouse: string)

  /** The form a new dialog starts with (MemberModal.tsx:15-27). */
  function EmptyForm(): (f: FormData)
    ensures f.gender == GenderText(Male)
    ensures forall k :: k != GenderField ==> GetField(f, k) == ""
  {
    FormData("", "Laki-laki", "", "", "", "", "", "", "", "", "")
  }

  // ---------------------------------------------------------------------------
  // Loading a member for editing

  /** `text.split('T')[0]`: the text before the first `'T'`, all of it when there is none. */
  function BeforeFirstT(s: string): (r: string)
    ensures |r| <= |s| && r == s[..|r|]
    ensures 'T' !in r
    ensures |r| < |s| ==> s[|r|] == 'T'
  {
    if s == [] || s[0] == 'T' then [] else [s[0]] + BeforeFirstT(s[1..])
  }

  /** `value || ''` for an optional text. */
  function OrEmpty(o: Option<string>): (r: string)
    ensures Truthy(o) ==> r == o.value
    ensures !Truthy(o) ==> r == ""
  {
    if o.Some? then o.value else ""
  }

  /** A date input's value: the date part of a set date, `''` otherwise. */
  function DateInput(o: Option<string>): (r: string)
    ensures !Truthy(o) ==> r == ""
    ensures Truthy(o) ==> r == BeforeFirstT(o.value)
  {
    if Truthy(o) then BeforeFirstT(o.value) else ""
  }

  /** The form filled from the edited member (MemberModal.tsx:31-47). The record's
      gender is always one of the two texts, so the `'Laki-laki'` fallback of line 35
      never applies to it. */
  function EditForm(m: Member): (f: FormData)
    ensures f.name == m.name && f.gender == GenderText(m.gender)
    ensures f.birth == DateInput(m.birth) && f.death == DateInput(m.death)
    ensures f.birthPlace == OrEmpty(m.birthPlace) && f.occupation == OrEmpty(m.occupation)
    ensures f.bio == OrEmpty(m.bio) && f.photo == OrEmpty(m.photo)
    ensures f.father == OrEmpty(m.father) && f.mother == OrEmpty(m.mother) && f.spouse == OrEmpty(m.spouse)
  {
    FormData(m.name, GenderText(m.gender), DateInput(m.birth), DateInput(m.death),
             OrEmpty(m.birthPlace), OrEmpty(m.occupation), OrEmpty(m.bio), OrEmpty(m.photo),
             OrEmpty(m.father), OrEmpty(m.mother), OrEmpty(m.spouse))
  }

  // ---------------------------------------------------------------------------
  // Changing one input

  /** The input names, one per form field. */
  datatype Field = NameField | GenderField | BirthField | DeathField | BirthPlaceField
                 | OccupationField | BioField | PhotoField | FatherField | MotherField | SpouseField

  function GetField(f: FormData, k: Field): string {
    match k
    case NameField => f.name
    case GenderField => f.gender
    case BirthField => f.birth
    case DeathField => f.death
    case BirthPlaceField => f.birthPlace
    case OccupationField => f.occupation
    case BioField => f.bio
    case PhotoField => f.photo
    case FatherField => f.father
    case MotherField => f.mother
    case SpouseField => f.spouse
  }

  /** `{ ...prev, [name]: value }` (MemberModal.tsx:94-97). */
  function SetField(f: FormData, k: Field, value: string): (g: FormData)
    ensures GetField(g, k) == value
    ensures forall other :: other != k ==> GetField(g, other) == GetField(f, other)
  {
    match k
    case NameField => f.(name := value)
    case GenderField => f.(gender := value)
    case BirthField => f.(birth := value)
    case DeathField => f.(death := value)
    case BirthPlaceField => f.(birthPlace := value)
    case OccupationField => f.(occupation := value)
    case BioField => f.(bio := value)
    case PhotoField => f.(photo := value)
    case FatherField => f.(father := value)
    case MotherField => f.(mother := value)
    case SpouseField => f.(spouse := value)
  }

  /** A form is determined by what its inputs hold. */
  lemma FormsAgreeingOnFieldsAreEqual(f: FormData, g: FormData)
    requires forall k :: GetField(f, k) == GetField(g, k)
    ensures f == g
  {
    assert GetField(f, NameField) == GetField(g, NameField) && GetField(f, GenderField) == GetField(g, GenderField);
    assert GetField(f, BirthField) == GetField(g, BirthField) && GetField(f, DeathField) == GetField(g, DeathField);
    assert GetField(f, BirthPlaceField) == GetField(g, BirthPlaceField) && GetField(f, OccupationField) == GetField(g, OccupationField);
    assert GetField(f, BioField) == GetField(g, BioField) && GetField(f, PhotoField) == GetField(g, PhotoField);
    assert GetField(f, FatherField) == GetField(g, FatherField) && GetField(f, MotherField) == GetField(g, MotherField);
    assert GetField(f, SpouseField) == GetField(g, SpouseField);
  }

  /** A later change of the same input overrides an earlier one. */
  lemma SetOverrides(f: FormData, k: Field, v1: string, v2: string)
    ensures SetField(SetField(f, k, v1), k, v2) == SetField(f, k, v2)
  {
    FormsAgreeingOnFieldsAreEqual(SetField(SetField(f, k, v1), k, v2), SetField(f, k, v2));
  }

  /** Changes of two different inputs do not interfere. */
  lemma SetsCommute(f: FormData, k1: Field, v1: string, k2: Field, v2: string)
    requires k1 != k2
    ensures SetField(SetField(f, k1, v1), k2, v2) == SetField(SetField(f, k2, v2), k1, v1)
  {
    FormsAgreeingOnFieldsAreEqual(SetField(SetField(f, k1, v1), k2, v2), SetField(SetField(f, k2, v2), k1, v1));
  }

  /** Writing back what an input already holds changes nothing. */
  lemma SetSameValue(f: FormData, k: Field)
    ensures SetField(f, k, GetField(f, k)) == f
  {
    FormsAgreeingOnFieldsAreEqual(SetField(f, k, GetField(f, k)), f);
  }

  /** The dialog's form state, replaced as a whole by each update. */
  class MemberForm {
    var data: FormData

    constructor()
      ensures data == EmptyForm()
    {
      data := EmptyForm();
    }

    /** The edit-load effect (MemberModal.tsx:31-47): only when a member is being edited. */
    method LoadMember(editing: Option<Member>)
      modifies this
      ensures editing.Some? ==> data == EditForm(editing.value)
      ensures editing.None? ==> data == old(data)
    {
      if editing.Some? {
        data := EditForm(editing.value);
      }
    }

    /** `handleChange` (MemberModal.tsx:94-97): the named input takes the new value and
        every other input keeps its own. */
    method HandleChange(k: Field, value: string)
      modifies this
      ensures data == SetField(old(data), k, value)
      ensures GetField(data, k) == value
      ensures forall other :: other != k ==> GetField(data, other) == GetField(old(data), other)
    {
      data := SetField(data, k, value);
    }
  }

  // ---------------------------------------------------------------------------
  // Submitting

  /** The record sent to the server: references and dates may be `null`. */
  datatype SubmitData = SubmitData(
    name: string,
    gender: string,
    birth: Option<string>,
    death: Option<string>,
    birthPlace: string,
    occupation: string,
    bio: string,
    photo: string,
    father: Option<string>,
    mother: Option<string>,
    spouse: Option<string>)

  /** `value || null` for a form text. */
  function NullIfEmpty(s: string): (r: Option<string>)
    ensures r.None? <==> s == ""
    ensures r.Some? ==> r.value == s
  {
    if s == "" then None else Some(s)
  }

  /** `submitData` (MemberModal.tsx:62-70): the five reference and date inputs turn
      `null` when empty; every other input is sent as it is. */
  function Submit(f: FormData): (d: SubmitData)
    ensures d.name == f.name && d.gender == f.gender
    ensures d.birthPlace == f.birthPlace && d.occupation == f.occupation && d.bio == f.bio && d.photo == f.photo
    ensures d.birth == NullIfEmpty(f.birth) && d.death == NullIfEmpty(f.death)
    ensures d.father == NullIfEmpty(f.father) && d.mother == NullIfEmpty(f.mother) && d.spouse == NullIfEmpty(f.spouse)
  {
    SubmitData(f.name, f.gender, NullIfEmpty(f.birth), NullIfEmpty(f.death),
               f.birthPlace, f.occupation, f.bio, f.photo,
               NullIfEmpty(f.father), NullIfEmpty(f.mother), NullIfEmpty(f.spouse))
  }

  /** Reading a sent value back into an input gives the input's text. */
  lemma NullIfEmptyRoundTrip(s: string)
    ensures OrEmpty(NullIfEmpty(s)) == s
  {
  }

  /** Opening a member for editing and saving without a change sends: the name and the
      gender text; each reference as stored when it is set and not empty, `null`
      otherwise; for each date, the part before its first `'T'` when the stored text is
      set and not empty, `null` when that part is empty or the date is unset; and the
      other optional texts as stored, `''` when unset. */
  lemma EditThenSubmit(m: Member)
    ensures var d := Submit(EditForm(m));
            && d.name == m.name && d.gender == GenderText(m.gender)
            && d.father == (if Truthy(m.father) then m.father else None)
            && d.mother == (if Truthy(m.mother) then m.mother else None)
            && d.spouse == (if Truthy(m.spouse) then m.spouse else None)
            && d.birth == (if Truthy(m.birth) then NullIfEmpty(BeforeFirstT(m.birth.value)) else None)
            && d.death == (if Truthy(m.death) then NullIfEmpty(BeforeFirstT(m.death.value)) else None)
            && d.birthPlace == OrEmpty(m.birthPlace) && d.occupation == OrEmpty(m.occupation)
            && d.bio == OrEmpty(m.bio) && d.photo == OrEmpty(m.photo)
  {
  }

  /** The date part of a timestamp text `date + "T" + clock` is `date`. */
  lemma {:induction false} BeforeFirstTOfTimestamp(date: string, clock: string)
    requires 'T' !in date
    ensures BeforeFirstT(date + "T" + clock) == date
  {
    if date != [] {
      assert (date + "T" + clock)[1..] == date[1..] + "T" + clock;
      BeforeFirstTOfTimestamp(date[1..], clock);
    }
  }

  /** A stored date arrives as an ISO timestamp `date + "T" + clock`: saving the member
      without a change sends its date part. */
  lemma TimestampSubmitsItsDate(m: Member, date: string, clock: string)
    requires 'T' !in date
    ensures m.birth == Some(date + "T" + clock) ==> Submit(EditForm(m)).birth == NullIfEmpty(date)
    ensures m.death == Some(date + "T" + clock) ==> Submit(EditForm(m)).death == NullIfEmpty(date)
  {
    BeforeFirstTOfTimestamp(date, clock);
  }

  /** A stored value that is unset or not empty, and a date without a time part. */
  predicate PlainValue(o: Option<string>) {
    o.None? || o.value != ""
  }

  predicate PlainDate(o: Option<string>) {
    PlainValue(o) && (o.Some? ==> 'T' !in o.value)
  }

  /** A text without `'T'` is its own date part. */
  lemma {:induction false} BeforeFirstTNoT(s: string)
    requires 'T' !in s
    ensures BeforeFirstT(s) == s
  {
    if s != [] {
      BeforeFirstTNoT(s[1..]);
    }
  }

  /** References stored unset or non-empty and dates stored without a time part come
      back unchanged. */
  lemma EditThenSubmitPlain(m: Member)
    requires PlainValue(m.father) && PlainValue(m.mother) && PlainValue(m.spouse)
    requires PlainDate(m.birth) && PlainDate(m.death)
    ensures var d := Submit(EditForm(m));
            && d.father == m.father && d.mother == m.mother && d.spouse == m.spouse
            && d.birth == m.birth && d.death == m.death
  {
    if m.birth.Some? {
      BeforeFirstTNoT(m.birth.value);
    }
    if m.death.Some? {
      BeforeFirstTNoT(m.death.value);
    }
  }

  // ---------------------------------------------------------------------------
  // Where the record goes

  datatype HttpMethod = Post | Put

  datatype Request = Request(verb: HttpMethod, url: string)

  const Collection: string := "/api/family-members"

  /** The URL and method of MemberModal.tsx:55-59: the member's own resource when
      editing, the collection when adding. */
  function RequestTarget(editing: Option<Member>): (r: Request)
    ensures r.verb == Put <==> editing.Some?
    ensures editing.None? ==> r.url == Collection
    ensures editing.Some? ==> r.url == Collection + "/" + editing.value.id
  {
    if editing.Some? then Request(Put, "/api/family-members/" + editing.value.id)
    else Request(Post, "/api/family-members")
  }

  /** Edits of members with different ids go to different URLs, and never to the
      collection itself. */
  lemma EditTargetsDistinct(a: Member, b: Member)
    requires a.id != b.id
    ensures RequestTarget(Some(a)).url != RequestTarget(Some(b)).url
    ensures RequestTarget(Some(a)).url != RequestTarget(None).url
  {
    var p := Collection + "/";
    var ua, ub := RequestTarget(Some(a)).url, RequestTarget(Some(b)).url;
    assert a.id == ua[|p|..] && b.id == ub[|p|..];
    assert |ua| > |Collection|;
  }

  // ---------------------------------------------------------------------------
  // Candidate lists

  /** `m._id !== member?._id`: when nobody is being edited every member passes. */
  predicate NotEdited(editing: Option<Member>, m: Member) {
    editing.None? || m.id != editing.value.id
  }

  function FatherCandidate(editing: Option<Member>): Member -> bool {
    (m: Member) => m.gender == Male && NotEdited(editing, m)
  }

  function MotherCandidate(editing: Option<Member>): Member -> bool {
    (m: Member) => m.gender == Female && NotEdited(editing, m)
  }

  function SpouseCandidate(editing: Option<Member>, formGender: string): Member -> bool {
    (m: Member) => GenderText(m.gender) != formGender && NotEdited(editing, m) && !Truthy(m.spouse)
  }

  /** `availableFathers` (MemberModal.tsx:100-102), in list order. */
  function AvailableFathers(ms: seq<Member>, editing: Option<Member>): (r: seq<Member>)
    ensures forall m :: m in r <==> m in ms && m.gender == Male && NotEdited(editing, m)
  {
    Filter(ms, FatherCandidate(editing))
  }

  /** `availableMothers` (MemberModal.tsx:103-105), in list order. */
  function AvailableMothers(ms: seq<Member>, editing: Option<Member>): (r: seq<Member>)
    ensures forall m :: m in r <==> m in ms && m.gender == Female && NotEdited(editing, m)
  {
    Filter(ms, MotherCandidate(editing))
  }

  /** `availableSpouses` (MemberModal.tsx:106-108): a gender text other than the form's,
      not the edited member, and no spouse reference of their own. */
  function AvailableSpouses(ms: seq<Member>, editing: Option<Member>, formGender: string): (r: seq<Member>)
    ensures forall m :: m in r <==> m in ms && GenderText(m.gender) != formGender &&
                                    NotEdited(editing, m) && !Truthy(m.spouse)
  {
    Filter(ms, SpouseCandidate(editing, formGender))
  }

  /** Every member but the edited one is offered as exactly one of father and mother;
      the edited member is offered as neither. */
  lemma ParentCandidatesPartition(ms: seq<Member>, editing: Option<Member>, m: Member)
    requires m in ms
    ensures NotEdited(editing, m) ==> (m in AvailableFathers(ms, editing) <==> m !in AvailableMothers(ms, editing))
    ensures !NotEdited(editing, m) ==> m !in AvailableFathers(ms, editing) && m !in AvailableMothers(ms, editing)
  {
  }

  function Unmarried(): Member -> bool {
    (m: Member) => !Truthy(m.spouse)
  }

  /** For a man's form the spouse candidates are the mother candidates without a
      spouse reference, in the same order; for a woman's form, the unmarried father
      candidates. */
  lemma SpouseCandidatesOppositeSex(ms: seq<Member>, editing: Option<Member>)
    ensures AvailableSpouses(ms, editing, GenderText(Male)) == Filter(AvailableMothers(ms, editing), Unmarried())
    ensures AvailableSpouses(ms, editing, GenderText(Female)) == Filter(AvailableFathers(ms, editing), Unmarried())
  {
    FilterTwice(ms, MotherCandidate(editing), Unmarried(), SpouseCandidate(editing, GenderText(Male)));
    FilterTwice(ms, FatherCandidate(editing), Unmarried(), SpouseCandidate(editing, GenderText(Female)));
  }

  /** The two texts the form's gender select offers. */
  predicate GenderTextOf(g: string) {
    g == GenderText(Male) || g == GenderText(Female)
  }

  /** A gender text outside the two (which the select never produces) excludes nobody
      by gender: every unmarried member other than the edited one is offered. */
  lemma SpouseCandidatesUnknownGender(ms: seq<Member>, editing: Option<Member>, formGender: string)
    requires !GenderTextOf(formGender)
    ensures forall m :: m in AvailableSpouses(ms, editing, formGender) <==>
                          m in ms && NotEdited(editing, m) && !Truthy(m.spouse)
  {
  }
}
