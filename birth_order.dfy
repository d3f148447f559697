/** Ordering members by birth date, as the tree builder does for its roots and for
    every list of children:

      list.sort((a, b) => a.tanggalLahir && b.tanggalLahir
                            ? new Date(a.tanggalLahir).getTime() - new Date(b.tanggalLahir).getTime()
                            : 0)

    The comparator treats an undated member (or one whose date does not parse) as
    equal to everybody, so it is not a consistent order and the engine's result is
    not determined by it. The model fixes one concrete stable insertion sort and
    proves what holds for it on every input: it permutes its input, the dated members
    come out in ascending order, and members with the same birth time (or with none)
    keep their input order. On inputs where every member is dated these facts pin
    down the unique stable sort. */
module BirthOrder {
  import opened Lists
  import opened Members

  /** What `new Date(text).getTime()` gives for a date text; `None` stands for NaN. */
  type Timestamps = string -> Option<int>

  /** The time the comparator uses for a member, `None` when the birth date is unset or empty
      (the comparator's `a.tanggalLahir && b.tanggalLahir` test) or does not parse. */
  function BirthTime(m: Member, time: Timestamps): Option<int> {
    if Truthy(m.birth) then time(m.birth.value) else None
  }

  /** The comparator returns a negative number: both dated and `a` strictly earlier. */
  predicate Precedes(a: Member, b: Member, time: Timestamps) {
    BirthTime(a, time).Some? && BirthTime(b, time).Some? &&
    BirthTime(a, time).value < BirthTime(b, time).value
  }

  /** Among the dated members of `s`, birth times never decrease. */
  predicate Ascending(s: seq<Member>, time: Timestamps) {
    forall i, j :: 0 <= i < j < |s| && BirthTime(s[i], time).Some? && BirthTime(s[j], time).Some? ==>
      BirthTime(s[i], time).value <= BirthTime(s[j], time).value
  }

  /** The members whose birth time is exactly `t` (`None`: the undated ones). */
  function HasBirthTime(time: Timestamps, t: Option<int>): Member -> bool {
    (m: Member) => BirthTime(m, time) == t
  }

  /** Insert `x` just before the first member it strictly precedes. */
  function Insert(s: seq<Member>, x: Member, time: Timestamps): (r: seq<Member>)
    ensures multiset(r) == multiset(s) + multiset{x}
    ensures |r| == |s| + 1
  {
    if s == [] || Precedes(x, s[0], time) then [x] + s
    else
      assert s == [s[0]] + s[1..];
      [s[0]] + Insert(s[1..], x, time)
  }

  /** Stable insertion sort: insert the members one by one, first to last. */
  function SortByBirth(s: seq<Member>, time: Timestamps): (r: seq<Member>)
    ensures multiset(r) == multiset(s)
    ensures |r| == |s|
    ensures Ascending(r, time)
  {
    if s == [] then []
    else
      var init, last := s[..|s| - 1], s[|s| - 1];
      assert s == init + [last];
      var sorted := SortByBirth(init, time);
      InsertAscending(sorted, last, time);
      Insert(sorted, last, time)
  }

  /** A dated member that strictly precedes the head of an ascending list precedes
      every dated member of the list, so none of them has its birth time. */
  lemma NoneWithTimeBefore(s: seq<Member>, x: Member, time: Timestamps)
    requires Ascending(s, time) && s != [] && Precedes(x, s[0], time)
    ensures Filter(s, HasBirthTime(time, BirthTime(x, time))) == []
  {
    var p := HasBirthTime(time, BirthTime(x, time));
    forall y | y in s ensures !p(y) {
      var j :| 0 <= j < |s| && s[j] == y;
      if j > 0 && BirthTime(y, time).Some? {
        assert BirthTime(s[0], time).value <= BirthTime(s[j], time).value;
      }
    }
    FilterKeepsNone(s, p);
  }

  lemma AscendingTail(s: seq<Member>, time: Timestamps)
    requires Ascending(s, time) && s != []
    ensures Ascending(s[1..], time)
  {
    forall i, j | 0 <= i < j < |s[1..]| && BirthTime(s[1..][i], time).Some? && BirthTime(s[1..][j], time).Some?
      ensures BirthTime(s[1..][i], time).value <= BirthTime(s[1..][j], time).value
    {
      assert s[1..][i] == s[i + 1] && s[1..][j] == s[j + 1];
    }
  }

  lemma {:induction false} InsertAscending(s: seq<Member>, x: Member, time: Timestamps)
    requires Ascending(s, time)
    ensures Ascending(Insert(s, x, time), time)
  {
    if s == [] || Precedes(x, s[0], time) {
    } else {
      var rest := Insert(s[1..], x, time);
      AscendingTail(s, time);
      InsertAscending(s[1..], x, time);
      assert multiset(rest) == multiset(s[1..]) + multiset{x};
      var r := [s[0]] + rest;
      forall i, j | 0 <= i < j < |r| && BirthTime(r[i], time).Some? && BirthTime(r[j], time).Some?
        ensures BirthTime(r[i], time).value <= BirthTime(r[j], time).value
      {
        if i == 0 {
          var y := r[j];
          assert y in multiset(rest);
          if y == x {
          } else {
            assert y in multiset(s[1..]);
            var k :| 0 <= k < |s[1..]| && s[1..][k] == y;
            assert s[k + 1] == y;
          }
        } else {
          assert r[i] == rest[i - 1] && r[j] == rest[j - 1];
        }
      }
    }
  }

  /** Insertion keeps the order of every group of equal birth times, and puts the new
      member after the members that share its birth time. */
  lemma {:induction false} InsertStable(s: seq<Member>, x: Member, time: Timestamps, t: Option<int>)
    requires Ascending(s, time)
    ensures Filter(Insert(s, x, time), HasBirthTime(time, t)) ==
            Filter(s, HasBirthTime(time, t)) + (if BirthTime(x, time) == t then [x] else [])
  {
    var p := HasBirthTime(time, t);
    if s == [] {
      assert Insert(s, x, time) == [x] + s;
      FilterCons(x, s, p);
    } else if Precedes(x, s[0], time) {
      InsertStableAtFront(s, x, time, t);
    } else {
      var rest := Insert(s[1..], x, time);
      assert Insert(s, x, time) == [s[0]] + rest;
      AscendingTail(s, time);
      InsertStable(s[1..], x, time, t);
      FilterConsStep(s[0], rest, s[1..], if BirthTime(x, time) == t then [x] else [], p);
      assert [s[0]] + s[1..] == s;
    }
  }

  /** The case where `x` goes in front: no member of `s` shares its birth time. */
  lemma InsertStableAtFront(s: seq<Member>, x: Member, time: Timestamps, t: Option<int>)
    requires Ascending(s, time) && s != [] && Precedes(x, s[0], time)
    ensures Filter([x] + s, HasBirthTime(time, t)) ==
            Filter(s, HasBirthTime(time, t)) + (if BirthTime(x, time) == t then [x] else [])
  {
    FilterCons(x, s, HasBirthTime(time, t));
    if BirthTime(x, time) == t {
      NoneWithTimeBefore(s, x, time);
    }
  }

  /** Stability: for every birth time `t`, the members with that time appear in the
      sorted list in the same order as in the input. */
  lemma {:induction false} SortStable(s: seq<Member>, time: Timestamps, t: Option<int>)
    ensures Filter(SortByBirth(s, time), HasBirthTime(time, t)) == Filter(s, HasBirthTime(time, t))
  {
    if s != [] {
      var init, last := s[..|s| - 1], s[|s| - 1];
      assert s == init + [last];
      SortStable(init, time, t);
      InsertStable(SortByBirth(init, time), last, time, t);
      FilterSnoc(init, last, HasBirthTime(time, t));
    }
  }

  /** Sorting neither adds nor loses members. */
  lemma SortSameMembers(s: seq<Member>, time: Timestamps)
    ensures forall x :: x in SortByBirth(s, time) <==> x in s
  {
    var r := SortByBirth(s, time);
    forall x ensures x in r <==> x in s {
      assert x in r <==> x in multiset(r);
      assert x in s <==> x in multiset(s);
    }
  }

  /** When every member is dated, the sorted list is ascending in birth time throughout. */
  lemma AllDatedSorted(s: seq<Member>, time: Timestamps)
    requires forall m :: m in s ==> BirthTime(m, time).Some?
    ensures forall i, j :: 0 <= i < j < |SortByBirth(s, time)| ==>
              BirthTime(SortByBirth(s, time)[i], time).Some? &&
              BirthTime(SortByBirth(s, time)[j], time).Some? &&
              BirthTime(SortByBirth(s, time)[i], time).value <= BirthTime(SortByBirth(s, time)[j], time).value
  {
    SortSameMembers(s, time);
  }
}
