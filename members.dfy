/** The family-member record every component reads (the `FamilyMember` interface),
    and the two ways the components look a member up by id: `members.find`, which
    yields the FIRST member with that id, and `new Map(members.map(m => [m._id, m]))`,
    in which a LATER entry overwrites an earlier one.

    Field names are English renderings of the record's keys:
    `_id` id, `namaLengkap` name, `jenisKelamin` gender, `tanggalLahir` birth,
    `tanggalWafat` death, `tempatLahir` birthPlace, `pekerjaan` occupation, `bio` bio,
    `fotoProfil` photo, `idAyah` father, `idIbu` mother, `idPasangan` spouse. */
module Members {
  import opened Lists

  /** `'Laki-laki'` (male) or `'Perempuan'` (female). */
  datatype Gender = Male | Female

  /** The string the record and the form carry for a gender. */
  function GenderText(g: Gender): (t: string)
    ensures t == "Laki-laki" || t == "Perempuan"
    ensures g == Male <==> t == "Laki-laki"
  {
    match g
    case Male => "Laki-laki"
    case Female => "Perempuan"
  }

  datatype Member = Member(
    id: string,
    name: string,
    gender: Gender,
    birth: Option<string>,
    death: Option<string>,
    birthPlace: Option<string>,
    occupation: Option<string>,
    bio: Option<string>,
    photo: Option<string>,
    father: Option<string>,
    mother: Option<string>,
    spouse: Option<string>)

  /** JavaScript truthiness of an optional string: present and not empty. */
  predicate Truthy(o: Option<string>) {
    o.Some? && o.value != ""
  }

  /** The set of ids occurring in a member list. */
  function IdsOf(ms: seq<Member>): set<string> {
    set m | m in ms :: m.id
  }

  /** No two entries of the list share an id (what the record store guarantees). */
  predicate DistinctIds(ms: seq<Member>) {
    forall i, j :: 0 <= i < j < |ms| ==> ms[i].id != ms[j].id
  }

  function HasId(id: string): Member -> bool {
    (m: Member) => m.id == id
  }

  /** `members.find(m => m._id === id)`. */
  function FindById(ms: seq<Member>, id: string): (r: Option<Member>)
    ensures r.None? <==> id !in IdsOf(ms)
    ensures r.Some? ==> r.value in ms && r.value.id == id
    ensures r.Some? ==> exists k :: 0 <= k < |ms| && ms[k] == r.value &&
                          forall j :: 0 <= j < k ==> ms[j].id != id
  {
    Find(ms, HasId(id))
  }

  /** `new Map(members.map(m => [m._id, m]))`: one entry per id occurring in the list. */
  function MemberMap(ms: seq<Member>): (mm: map<string, Member>)
    ensures mm.Keys == IdsOf(ms)
    ensures forall id :: id in mm ==> mm[id] in ms && mm[id].id == id
  {
    if ms == [] then map[]
    else
      var init := ms[..|ms| - 1];
      var last := ms[|ms| - 1];
      assert ms == init + [last];
      MemberMap(init)[last.id := last]
  }

  /** The map holds the LAST member with each id: no later entry of the list has that id. */
  lemma {:induction false} MemberMapKeepsLast(ms: seq<Member>, id: string)
    requires id in IdsOf(ms)
    ensures exists k :: 0 <= k < |ms| && ms[k] == MemberMap(ms)[id] &&
                        forall j :: k < j < |ms| ==> ms[j].id != id
  {
    var init, last := ms[..|ms| - 1], ms[|ms| - 1];
    assert IdsOf(ms) == IdsOf(init) + {last.id} by {
      assert ms == init + [last];
      IdsOfSnoc(init, last);
    }
    if id == last.id {
      assert ms[|ms| - 1] == MemberMap(ms)[id];
    } else {
      MemberMapKeepsLast(init, id);
      var k :| 0 <= k < |init| && init[k] == MemberMap(init)[id] &&
               forall j :: k < j < |init| ==> init[j].id != id;
      assert ms[k] == MemberMap(ms)[id];
      NoLaterId(ms, init, id, k);
    }
  }

  /** Extending "no later entry has the id" past a last entry with another id. */
  lemma NoLaterId(ms: seq<Member>, init: seq<Member>, id: string, k: int)
    requires |ms| > 0 && init == ms[..|ms| - 1] && ms[|ms| - 1].id != id
    requires 0 <= k < |init| && forall j :: k < j < |init| ==> init[j].id != id
    ensures forall j :: k < j < |ms| ==> ms[j].id != id
  {
    forall j | k < j < |ms| ensures ms[j].id != id {
      if j < |init| {
        assert ms[j] == init[j];
      }
    }
  }

  /** The ids of a list with one more member at its end. */
  lemma IdsOfSnoc(init: seq<Member>, last: Member)
    ensures IdsOf(init + [last]) == IdsOf(init) + {last.id}
  {
    assert forall m :: m in init + [last] <==> m in init || m == last;
  }

  /** `memberMap.get(id)`. */
  function MapGet(ms: seq<Member>, id: string): (r: Option<Member>)
    ensures r.None? <==> id !in IdsOf(ms)
    ensures r.Some? ==> r.value in ms && r.value.id == id
  {
    var mm := MemberMap(ms);
    if id in mm then Some(mm[id]) else None
  }

  /** With distinct ids, the map lookup and `find` agree: both give the one member with that id. */
  lemma MapGetIsFind(ms: seq<Member>, id: string)
    requires DistinctIds(ms)
    ensures MapGet(ms, id) == FindById(ms, id)
  {
    var a, b := MapGet(ms, id), FindById(ms, id);
    if a.Some? {
      var i :| 0 <= i < |ms| && ms[i] == a.value;
      var k :| 0 <= k < |ms| && ms[k] == b.value;
      assert ms[i].id == ms[k].id;
    }
  }
}
