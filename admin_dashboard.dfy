/** The admin dashboard: the fetched student list and analytics series, the
    loading flag, the search box, and the list the search leaves visible. */
module Dashboard {
  import opened Types
  import opened Text
  import opened DataService

  /** The search keeps a record when the lower-cased term occurs in its
      lower-cased name or email. */
  predicate Matches(s: StudentRecord, term: string): (b: bool)
    ensures b <==> ((exists i: nat :: OccursAt(Lower(s.name), Lower(term), i))
                    || (exists i: nat :: OccursAt(Lower(s.email), Lower(term), i)))
    ensures term == "" ==> b
  {
    assert OccursAt(Lower(s.name), Lower(""), 0);
    Contains(Lower(s.name), Lower(term)) || Contains(Lower(s.email), Lower(term))
  }

  /** The search ignores the case of the term: a term and its lower-cased
      form keep the same records. */
  lemma MatchesIgnoresTermCase(s: StudentRecord, term: string)
    ensures Matches(s, term) <==> Matches(s, Lower(term))
  {
    LowerIdempotent(term);
  }

  /** `students.filter(...)`: the matching records, in their original order.
      Every occurrence of a matching record is kept, and no other. */
  function FilterStudents(students: seq<StudentRecord>, term: string): (r: seq<StudentRecord>)
    ensures |r| <= |students|
    ensures forall x :: x in r ==> x in students && Matches(x, term)
    ensures forall x :: x in students && Matches(x, term) ==> x in r
    ensures forall x :: multiset(r)[x] == if Matches(x, term) then multiset(students)[x] else 0
  {
    if students == [] then []
    else
      var rest := FilterStudents(students[1..], term);
      assert students == [students[0]] + students[1..];
      assert forall x :: x in students ==> x == students[0] || x in students[1..];
      if Matches(students[0], term) then [students[0]] + rest else rest
  }

  /** `a` is `b` with some elements left out, the rest in their order. */
  predicate IsSubsequence<T(==)>(a: seq<T>, b: seq<T>)
    decreases |b|
  {
    if a == [] then true
    else if b == [] then false
    else if a[0] == b[0] then IsSubsequence(a[1..], b[1..])
    else IsSubsequence(a, b[1..])
  }

  lemma {:induction false} IsSubsequenceDropHead<T>(a: seq<T>, b: seq<T>)
    requires |b| > 0 && IsSubsequence(a, b[1..])
    ensures IsSubsequence(a, b)
    decreases |b|, 0
  {
    if a != [] && a[0] == b[0] {
      // a[1..] is a subsequence of a, which is a subsequence of b[1..]
      SubsequenceOfTail(a, b[1..]);
    }
  }

  lemma {:induction false} SubsequenceOfTail<T>(a: seq<T>, b: seq<T>)
    requires a != [] && IsSubsequence(a, b)
    ensures IsSubsequence(a[1..], b)
    decreases |b|, 1
  {
    if a[0] == b[0] {
      IsSubsequenceDropHead(a[1..], b);
    } else {
      SubsequenceOfTail(a, b[1..]);
      IsSubsequenceDropHead(a[1..], b);
    }
  }

  /** Filtering keeps the records' order: the result is a subsequence. */
  lemma {:induction false} FilterIsSubsequence(students: seq<StudentRecord>, term: string)
    ensures IsSubsequence(FilterStudents(students, term), students)
    decreases |students|
  {
    if students != [] {
      var rest := FilterStudents(students[1..], term);
      FilterIsSubsequence(students[1..], term);
      if Matches(students[0], term) {
        assert ([students[0]] + rest)[1..] == rest;
      } else {
        IsSubsequenceDropHead(rest, students);
      }
    }
  }

  /** An empty search shows the whole list. */
  lemma {:induction false} EmptyTermKeepsAll(students: seq<StudentRecord>)
    ensures FilterStudents(students, "") == students
    decreases |students|
  {
    if students != [] {
      assert Lower("") == "";
      assert StartsWith(Lower(students[0].name), "");
      EmptyTermKeepsAll(students[1..]);
    }
  }

  /** The search shows the whole list exactly when every record matches. */
  lemma {:induction false} FilterKeepsAllIff(students: seq<StudentRecord>, term: string)
    ensures FilterStudents(students, term) == students <==> forall x :: x in students ==> Matches(x, term)
    decreases |students|
  {
    if students != [] {
      FilterKeepsAllIff(students[1..], term);
      var rest := FilterStudents(students[1..], term);
      if !Matches(students[0], term) {
        assert |rest| <= |students[1..]|;
      } else {
        assert forall x :: x in students ==> x == students[0] || x in students[1..];
      }
    }
  }

  predicate DatesDistinct(a: seq<AnalyticsData>) {
    forall i, j :: 0 <= i < j < |a| ==> a[i].date != a[j].date
  }

  function DatesOf(a: seq<AnalyticsData>): set<string> {
    set x | x in a :: x.date
  }

  /** The dates of a non-empty series: its first date and those of the rest. */
  lemma DatesOfCons(a: seq<AnalyticsData>)
    requires a != []
    ensures DatesOf(a) == {a[0].date} + DatesOf(a[1..])
  {
    assert a == [a[0]] + a[1..];
  }

  /** Without repeated dates, the first date is not among the rest, which
      have no repeated date either. */
  lemma DatesDistinctTail(a: seq<AnalyticsData>)
    requires a != [] && DatesDistinct(a)
    ensures DatesDistinct(a[1..]) && a[0].date !in DatesOf(a[1..])
  {
    var t := a[1..];
    forall i, j | 0 <= i < j < |t| ensures t[i].date != t[j].date {
      assert t[i] == a[i + 1] && t[j] == a[j + 1];
    }
    forall x | x in t ensures x.date != a[0].date {
      var k :| 0 <= k < |t| && t[k] == x;
      assert a[k + 1] == x;
    }
  }

  /** A series without a repeated date has as many dates as entries. */
  lemma {:induction false} DistinctDatesCount(a: seq<AnalyticsData>)
    requires DatesDistinct(a)
    ensures |DatesOf(a)| == |a|
    decreases |a|
  {
    if a != [] {
      DatesDistinctTail(a);
      DistinctDatesCount(a[1..]);
      DatesOfCons(a);
    }
  }

  class AdminDashboard {
    var students: seq<StudentRecord>
    var analytics: seq<AnalyticsData>
    var loading: bool
    var searchTerm: string

    constructor()
      ensures students == [] && analytics == [] && loading && searchTerm == ""
    {
      students, analytics := [], [];
      loading := true;
      searchTerm := "";
    }

    /** The fetch on mount, for the two responses received. Both lists are
        set only when both calls succeed; the loading flag is cleared in
        every case. */
    method FetchData(studentsResp: Response<seq<ServerStudent>>, analyticsResp: Response<seq<AnalyticsData>>)
      modifies this
      ensures !loading && searchTerm == old(searchTerm)
      ensures GetStudents(studentsResp).Success? && GetAnalytics(analyticsResp).Success? ==>
        students == GetStudents(studentsResp).value && analytics == GetAnalytics(analyticsResp).value
      ensures GetStudents(studentsResp).Failure? || GetAnalytics(analyticsResp).Failure? ==>
        students == old(students) && analytics == old(analytics)
    {
      var sData := GetStudents(studentsResp);
      var aData := GetAnalytics(analyticsResp);
      if sData.Success? && aData.Success? {
        students := sData.value;
        analytics := aData.value;
      }
      loading := false;
    }

    /** The search box's change handler. */
    method SetSearchTerm(term: string)
      modifies this
      ensures searchTerm == term
      ensures students == old(students) && analytics == old(analytics) && loading == old(loading)
      ensures TotalRecords() == old(TotalRecords()) && ActiveDates() == old(ActiveDates())
    {
      searchTerm := term;
    }

    /** The list shown under the search box. */
    function FilteredStudents(): (r: seq<StudentRecord>)
      reads this
      ensures IsSubsequence(r, students)
      ensures forall x :: x in r <==> x in students && Matches(x, searchTerm)
      ensures forall x :: multiset(r)[x] == if Matches(x, searchTerm) then multiset(students)[x] else 0
    {
      FilterIsSubsequence(students, searchTerm);
      FilterStudents(students, searchTerm)
    }

    /** The "total records" tile: every record, whatever the search, so
        never fewer than the list shows. */
    function TotalRecords(): (n: nat)
      reads this
      ensures n >= |FilteredStudents()|
      ensures n == |multiset(students)|
    {
      |students|
    }

    /** The "active dates" tile: the number of series entries, which is the
        number of distinct dates when no date repeats. */
    function ActiveDates(): (n: nat)
      reads this
      ensures n == |analytics|
      ensures DatesDistinct(analytics) ==> n == |DatesOf(analytics)|
    {
      if DatesDistinct(analytics) then
        DistinctDatesCount(analytics);
        |analytics|
      else
        |analytics|
    }
  }
}
