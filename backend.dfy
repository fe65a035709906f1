/** The backend service: the student table (an in-memory sequence of rows
    held by `StudentStore`), the check-in endpoint, the three read endpoints
    (list, daily analytics, CSV export), the database URL rewrite and the
    welcome-letter fallback. The clock and the AI service's answers are
    parameters. */
module Backend {
  import opened Types
  import opened Text

  /** A point in time as a (day, time of day) pair; rendering it with
      `isoformat` is not modelled. */
  datatype Timestamp = Timestamp(date: nat, time: nat)

  predicate NotAfter(a: Timestamp, b: Timestamp) {
    a.date < b.date || (a.date == b.date && a.time <= b.time)
  }

  /** A row of the `students` table. */
  datatype Student = Student(
    id: nat,
    name: string,
    email: string,
    checkInTime: Timestamp,
    letter: Option<string>)

  datatype HttpError = HttpError(status: nat, detail: string)

  const DuplicateEmailDetail: string := "此 Email 已經登記過了"

  // ---------------------------------------------------------------- config

  const DefaultDatabaseUrl: string := "sqlite:///./students.db"
  const PostgresScheme: string := "postgres://"
  const PostgresqlScheme: string := "postgresql://"

  /** The rewrite some cloud providers' URLs need: the `postgres://` scheme
      becomes `postgresql://`, every other URL is kept. */
  function NormalizeDatabaseUrl(url: string): (r: string)
    ensures StartsWith(url, PostgresScheme) ==> r == PostgresqlScheme + url[|PostgresScheme|..]
    ensures !StartsWith(url, PostgresScheme) ==> r == url
  {
    if StartsWith(url, PostgresScheme) then
      assert OccursAt(url, PostgresScheme, 0);
      ReplaceFirst(url, PostgresScheme, PostgresqlScheme)
    else url
  }

  /** The URL the engine is created with, from the environment variable. */
  function DatabaseUrl(env: Option<string>): (r: string)
    ensures env.None? ==> r == DefaultDatabaseUrl
    ensures env.Some? ==> r == NormalizeDatabaseUrl(env.value)
  {
    match env
    case None => DefaultDatabaseUrl
    case Some(url) => NormalizeDatabaseUrl(url)
  }

  /** Rewriting twice changes nothing more: a rewritten URL no longer starts
      with `postgres://`. */
  lemma NormalizeIdempotent(url: string)
    ensures NormalizeDatabaseUrl(NormalizeDatabaseUrl(url)) == NormalizeDatabaseUrl(url)
  {
    var r := NormalizeDatabaseUrl(url);
    if StartsWith(url, PostgresScheme) {
      assert r[8] == 'q';
      assert !StartsWith(r, PostgresScheme);
    }
  }

  // ---------------------------------------------------------------- letter

  const FallbackPrefix: string := "親愛的 "
  const FallbackSuffix: string := "，歡迎來到 ABC 系！我們很高興您參加了我們的招生博覽會。期待在未來的學期與您相見！"

  /** The fixed welcome letter used whenever the AI service is not used. */
  function FallbackLetter(name: string): (r: string)
    ensures |r| == |FallbackPrefix| + |name| + |FallbackSuffix|
    ensures StartsWith(r, FallbackPrefix)
    ensures r[|FallbackPrefix|..|FallbackPrefix| + |name|] == name
    ensures r[|FallbackPrefix| + |name|..] == FallbackSuffix
  {
    var r := FallbackPrefix + name + FallbackSuffix;
    assert r[..|FallbackPrefix|] == FallbackPrefix;
    r
  }

  /** The fallback letter embeds the name right after the greeting, so it
      tells names apart. */
  lemma FallbackLetterEmbedsName(name: string)
    ensures OccursAt(FallbackLetter(name), name, |FallbackPrefix|)
    ensures forall other: string :: FallbackLetter(other) == FallbackLetter(name) ==> other == name
  {
    var l := FallbackLetter(name);
    assert l[|FallbackPrefix|..|FallbackPrefix| + |name|] == name;
    forall other: string | FallbackLetter(other) == FallbackLetter(name) ensures other == name {
      var lo := FallbackLetter(other);
      assert |other| == |name|;
      assert lo[|FallbackPrefix|..|FallbackPrefix| + |other|] == other;
    }
  }

  /** What the AI call did: it replied with a text, or it raised. */
  datatype AiCall = Replied(text: string) | Raised

  /** `generate_welcome_letter`: with the library missing or the key unset
      or empty the fallback letter; otherwise the reply, stripped, or the
      fallback letter when the call raised. */
  function GenerateWelcomeLetter(name: string, genaiAvailable: bool, apiKey: Option<string>, call: AiCall): (r: string)
    ensures !genaiAvailable || apiKey.None? || apiKey.value == "" ==> r == FallbackLetter(name)
    ensures call.Raised? ==> r == FallbackLetter(name)
    ensures genaiAvailable && apiKey.Some? && apiKey.value != "" && call.Replied? ==> r == Strip(call.text)
  {
    if !genaiAvailable || apiKey.None? || apiKey.value == "" then FallbackLetter(name)
    else match call
      case Replied(text) => Strip(text)
      case Raised => FallbackLetter(name)
  }

  /** Python's `str.isspace` for one character. */
  predicate IsSpace(c: char) {
    var n := c as int;
    (0x09 <= n <= 0x0D) || (0x1C <= n <= 0x20) || n == 0x85 || n == 0xA0 || n == 0x1680
    || (0x2000 <= n <= 0x200A) || n == 0x2028 || n == 0x2029 || n == 0x202F || n == 0x205F
    || n == 0x3000
  }

  predicate AllSpace(s: string) {
    forall i :: 0 <= i < |s| ==> IsSpace(s[i])
  }

  lemma AllSpaceSnoc(s: string, c: char)
    requires AllSpace(s) && IsSpace(c)
    ensures AllSpace(s + [c])
  {
  }

  /** Length of the white-space run at the start of `s`. */
  function LeadingSpaces(s: string): (k: nat)
    ensures k <= |s| && AllSpace(s[..k])
    ensures k < |s| ==> !IsSpace(s[k])
  {
    if s != [] && IsSpace(s[0]) then
      var k := LeadingSpaces(s[1..]);
      assert s[..k + 1] == [s[0]] + s[1..][..k];
      assert k + 1 < |s| ==> s[k + 1] == s[1..][k];
      k + 1
    else 0
  }

  /** Length of the white-space run at the end of `s`. */
  function TrailingSpaces(s: string): (k: nat)
    ensures k <= |s| && AllSpace(s[|s| - k..])
    ensures k < |s| ==> !IsSpace(s[|s| - k - 1])
  {
    if s != [] && IsSpace(s[|s| - 1]) then
      var init := s[..|s| - 1];
      var k := TrailingSpaces(init);
      assert s[|s| - (k + 1)..] == init[|init| - k..] + [s[|s| - 1]];
      AllSpaceSnoc(init[|init| - k..], s[|s| - 1]);
      assert k + 1 < |s| ==> s[|s| - (k + 1) - 1] == init[|init| - k - 1];
      k + 1
    else 0
  }

  /** `str.strip()`: the text without white space at either end. */
  function Strip(s: string): (r: string)
    ensures |r| <= |s|
    ensures r != [] ==> !IsSpace(r[0]) && !IsSpace(r[|r| - 1])
    ensures AllSpace(s) ==> r == []
  {
    var a := LeadingSpaces(s);
    var t := s[a..];
    var k := TrailingSpaces(t);
    var r := t[..|t| - k];
    assert r != [] ==> r[0] == s[a] && r[|r| - 1] == t[|t| - k - 1];
    assert AllSpace(s) ==> a == |s|;
    r
  }

  /** Cutting the suffix of `s` from `a` at `b - a` cuts `s` itself at `b`. */
  lemma SuffixSlices(s: string, a: nat, b: nat)
    requires a <= b <= |s|
    ensures s[a..][..b - a] == s[a..b] && s[a..][b - a..] == s[b..]
  {
  }

  /** `Strip` takes the suffix after the leading run, then cuts off the
      trailing run of that suffix. */
  lemma StripAsCuts(s: string, a: nat, b: nat)
    requires a == LeadingSpaces(s) && b == |s| - TrailingSpaces(s[a..])
    ensures Strip(s) == s[a..][..b - a]
  {
  }

  /** `Strip` keeps the slice between the leading and the trailing run. */
  lemma StripSlice(s: string, a: nat, b: nat)
    requires a == LeadingSpaces(s) && b == |s| - TrailingSpaces(s[a..])
    ensures a <= b <= |s| && Strip(s) == s[a..b]
  {
    StripAsCuts(s, a, b);
    SuffixSlices(s, a, b);
  }

  /** What `Strip` cuts away is white space. */
  lemma StripCutsSpace(s: string, a: nat, b: nat)
    requires a == LeadingSpaces(s) && b == |s| - TrailingSpaces(s[a..])
    ensures a <= b <= |s| && AllSpace(s[..a]) && AllSpace(s[b..])
  {
    var t := s[a..];
    var k := TrailingSpaces(t);
    assert |t| - k == b - a;
    SuffixSlices(s, a, b);
    assert t[|t| - k..] == s[b..];
  }

  /** The stripped text is a slice of the original, with only white space
      cut away on either side and no white space at either end. */
  lemma StripIsTrimmedSlice(s: string)
    ensures exists a, b :: (0 <= a <= b <= |s| && Strip(s) == s[a..b]
      && AllSpace(s[..a]) && AllSpace(s[b..]))
    ensures Strip(s) != [] ==> !IsSpace(Strip(s)[0]) && !IsSpace(Strip(s)[|Strip(s)| - 1])
  {
    var a := LeadingSpaces(s);
    var b := |s| - TrailingSpaces(s[a..]);
    StripSlice(s, a, b);
    StripCutsSpace(s, a, b);
  }

  // ---------------------------------------------------------------- store

  predicate EmailsUnique(rows: seq<Student>) {
    forall i, j :: 0 <= i < j < |rows| ==> rows[i].email != rows[j].email
  }

  predicate IdsUnique(rows: seq<Student>) {
    forall i, j :: 0 <= i < j < |rows| ==> rows[i].id != rows[j].id
  }

  /** The first row with the given email, as the duplicate check queries it. */
  function FindByEmail(rows: seq<Student>, email: string): (r: Option<Student>)
    ensures r.Some? ==> r.value in rows && r.value.email == email
    ensures r.None? ==> forall s :: s in rows ==> s.email != email
  {
    if rows == [] then None
    else if rows[0].email == email then Some(rows[0])
    else FindByEmail(rows[1..], email)
  }

  /** The table, with the auto-increment counter that hands out ids. */
  class StudentStore {
    var rows: seq<Student>
    var nextId: nat

    ghost predicate Valid()
      reads this
    {
      && nextId >= 1
      && EmailsUnique(rows)
      && IdsUnique(rows)
      && forall i :: 0 <= i < |rows| ==> 1 <= rows[i].id < nextId
    }

    constructor()
      ensures Valid() && rows == [] && nextId == 1
    {
      rows := [];
      nextId := 1;
    }

    /** `check_in`: a taken email is refused with status 400 and nothing is
        stored; otherwise one row is appended with a fresh id, the given
        name and email, the current time and the generated letter. */
    method CheckIn(name: string, email: string, now: Timestamp,
                   genaiAvailable: bool, apiKey: Option<string>, call: AiCall)
      returns (r: Result<Student, HttpError>)
      requires Valid()
      modifies this
      ensures Valid()
      ensures FindByEmail(old(rows), email).Some? ==>
        r == Failure(HttpError(400, DuplicateEmailDetail)) && rows == old(rows) && nextId == old(nextId)
      ensures FindByEmail(old(rows), email).None? ==>
        && r.Success?
        && r.value == Student(old(nextId), name, email, now,
                              Some(GenerateWelcomeLetter(name, genaiAvailable, apiKey, call)))
        && rows == old(rows) + [r.value]
        && nextId == old(nextId) + 1
        && forall s :: s in old(rows) ==> s.id != r.value.id
    {
      var existing := FindByEmail(rows, email);
      if existing.Some? {
        return Failure(HttpError(400, DuplicateEmailDetail));
      }
      var letter := GenerateWelcomeLetter(name, genaiAvailable, apiKey, call);
      var student := Student(nextId, name, email, now, Some(letter));
      rows := rows + [student];
      nextId := nextId + 1;
      r := Success(student);
    }

    /** `export_csv`: the header, then one row per student in the listing
        order, written one after the other into the output buffer. */
    method ExportCsv() returns (table: seq<seq<Field>>)
      ensures |table| == |rows| + 1
      ensures table[0] == CsvHeader
      ensures forall i :: 0 <= i < |rows| ==> table[i + 1] == CsvRow(ListStudents(rows)[i])
    {
      var students := ListStudents(rows);
      table := [CsvHeader];
      for i := 0 to |students|
        invariant |table| == i + 1 && table[0] == CsvHeader
        invariant forall k :: 0 <= k < i ==> table[k + 1] == CsvRow(students[k])
      {
        table := table + [CsvRow(students[i])];
      }
    }
  }

  // ---------------------------------------------------------------- queries

  predicate SortedByTimeDesc(s: seq<Student>) {
    forall i, j :: 0 <= i < j < |s| ==> NotAfter(s[j].checkInTime, s[i].checkInTime)
  }

  /** Every row of `r` is at or before `h`. */
  predicate NoneAfter(r: seq<Student>, h: Student) {
    forall y :: y in r ==> NotAfter(y.checkInTime, h.checkInTime)
  }

  /** A row at or after every row of a sorted list can go in front of it. */
  lemma ConsSorted(h: Student, r: seq<Student>)
    requires SortedByTimeDesc(r) && NoneAfter(r, h)
    ensures SortedByTimeDesc([h] + r)
  {
    forall i, j | 0 <= i < j < |[h] + r|
      ensures NotAfter(([h] + r)[j].checkInTime, ([h] + r)[i].checkInTime)
    {
      if i == 0 {
        assert ([h] + r)[j] == r[j - 1];
        assert r[j - 1] in r;
      } else {
        assert ([h] + r)[i] == r[i - 1] && ([h] + r)[j] == r[j - 1];
      }
    }
  }

  /** In a sorted list the rows after the first are at or before it. */
  lemma SortedTailNotAfterHead(s: seq<Student>)
    requires s != [] && SortedByTimeDesc(s)
    ensures NoneAfter(s[1..], s[0])
  {
    forall y | y in s[1..] ensures NotAfter(y.checkInTime, s[0].checkInTime) {
      var j :| 0 <= j < |s[1..]| && s[1..][j] == y;
      assert s[j + 1] == y;
    }
  }

  /** The rows of `t` with `x` added, in any order, stay at or before `h`. */
  lemma NoneAfterWithRow(r: seq<Student>, t: seq<Student>, x: Student, h: Student)
    requires multiset(r) == multiset(t) + multiset{x}
    requires NoneAfter(t, h) && NotAfter(x.checkInTime, h.checkInTime)
    ensures NoneAfter(r, h)
  {
    forall y | y in r ensures NotAfter(y.checkInTime, h.checkInTime) {
      assert y in multiset(r);
      if y != x {
        assert y in multiset(t);
      }
    }
  }

  function InsertByTimeDesc(x: Student, s: seq<Student>): (r: seq<Student>)
    requires SortedByTimeDesc(s)
    ensures SortedByTimeDesc(r)
    ensures multiset(r) == multiset(s) + multiset{x} && |r| == |s| + 1
    ensures r[0] == x || (s != [] && r[0] == s[0])
  {
    if s == [] || NotAfter(s[0].checkInTime, x.checkInTime) then
      ConsSorted(x, s);
      [x] + s
    else
      assert s == [s[0]] + s[1..];
      var rest := InsertByTimeDesc(x, s[1..]);
      SortedTailNotAfterHead(s);
      NoneAfterWithRow(rest, s[1..], x, s[0]);
      ConsSorted(s[0], rest);
      [s[0]] + rest
  }

  /** `get_students`: all rows, latest check-in first. Rows with the same
      time come in an order the database does not fix; this model picks one. */
  function ListStudents(rows: seq<Student>): (r: seq<Student>)
    ensures SortedByTimeDesc(r)
    ensures multiset(r) == multiset(rows) && |r| == |rows|
  {
    if rows == [] then []
    else
      assert rows == [rows[0]] + rows[1..];
      InsertByTimeDesc(rows[0], ListStudents(rows[1..]))
  }

  /** One point of the analytics series. */
  datatype DayCount = DayCount(date: nat, count: nat)

  /** Number of rows checked in on day `d`. */
  function CountOnDate(rows: seq<Student>, d: nat): nat {
    if rows == [] then 0
    else CountOnDate(rows[..|rows| - 1], d) + (if rows[|rows| - 1].checkInTime.date == d then 1 else 0)
  }

  predicate DatesAscending(acc: seq<DayCount>) {
    forall i, j :: 0 <= i < j < |acc| ==> acc[i].date < acc[j].date
  }

  predicate CountsPositive(acc: seq<DayCount>) {
    forall i :: 0 <= i < |acc| ==> acc[i].count >= 1
  }

  /** The count the series records for day `d` (zero if it has no entry). */
  function EntryCount(acc: seq<DayCount>, d: nat): nat {
    if acc == [] then 0
    else (if acc[0].date == d then acc[0].count else 0) + EntryCount(acc[1..], d)
  }

  function TotalCount(acc: seq<DayCount>): nat {
    if acc == [] then 0 else acc[0].count + TotalCount(acc[1..])
  }

  /** Count one more check-in on day `d`. */
  function AddDate(acc: seq<DayCount>, d: nat): (r: seq<DayCount>)
    requires DatesAscending(acc) && CountsPositive(acc)
    ensures DatesAscending(r) && CountsPositive(r)
    ensures forall x :: EntryCount(r, x) == EntryCount(acc, x) + (if x == d then 1 else 0)
    ensures TotalCount(r) == TotalCount(acc) + 1
    ensures |r| > 0 && r[0].date == (if acc == [] || d < acc[0].date then d else acc[0].date)
  {
    if acc == [] then [DayCount(d, 1)]
    else if acc[0].date == d then
      var r := [acc[0].(count := acc[0].count + 1)] + acc[1..];
      assert r[1..] == acc[1..];
      r
    else if d < acc[0].date then
      var r := [DayCount(d, 1)] + acc;
      assert r[1..] == acc;
      EntryCountAbsentBelow(acc, d);
      r
    else
      var rest := AddDate(acc[1..], d);
      var r := [acc[0]] + rest;
      assert r[1..] == rest;
      r
  }

  lemma {:induction false} EntryCountAbsentBelow(acc: seq<DayCount>, d: nat)
    requires DatesAscending(acc) && (acc == [] || d < acc[0].date)
    ensures EntryCount(acc, d) == 0
    decreases |acc|
  {
    if acc != [] {
      EntryCountAbsentBelow(acc[1..], d);
    }
  }

  /** `get_analytics`: one entry per day that has check-ins, days ascending. */
  function DailyCounts(rows: seq<Student>): (r: seq<DayCount>)
    ensures DatesAscending(r) && CountsPositive(r)
    ensures forall x :: EntryCount(r, x) == CountOnDate(rows, x)
    ensures TotalCount(r) == |rows|
  {
    if rows == [] then []
    else AddDate(DailyCounts(rows[..|rows| - 1]), rows[|rows| - 1].checkInTime.date)
  }

  /** In a series with ascending dates, the entry for a day holds that day's
      whole count. */
  lemma {:induction false} EntryCountAt(acc: seq<DayCount>, i: nat)
    requires DatesAscending(acc) && i < |acc|
    ensures EntryCount(acc, acc[i].date) == acc[i].count
    decreases |acc|
  {
    if i == 0 {
      EntryCountAbsentBelow(acc[1..], acc[0].date);
    } else {
      EntryCountAt(acc[1..], i - 1);
      assert acc[0].date < acc[i].date;
    }
  }

  lemma {:induction false} EntryCountPositiveHasEntry(acc: seq<DayCount>, d: nat)
    requires EntryCount(acc, d) > 0
    ensures exists i :: 0 <= i < |acc| && acc[i].date == d
    decreases |acc|
  {
    if acc[0].date != d {
      EntryCountPositiveHasEntry(acc[1..], d);
      var i :| 0 <= i < |acc[1..]| && acc[1..][i].date == d;
      assert acc[i + 1].date == d;
    }
  }

  lemma {:induction false} CountOnDateIff(rows: seq<Student>, d: nat)
    ensures CountOnDate(rows, d) > 0 <==> exists k :: 0 <= k < |rows| && rows[k].checkInTime.date == d
    decreases |rows|
  {
    if rows != [] {
      var init := rows[..|rows| - 1];
      CountOnDateIff(init, d);
      if exists k :: 0 <= k < |init| && init[k].checkInTime.date == d {
        var k :| 0 <= k < |init| && init[k].checkInTime.date == d;
        assert rows[k] == init[k];
      }
      if exists k :: 0 <= k < |rows| && rows[k].checkInTime.date == d {
        var k :| 0 <= k < |rows| && rows[k].checkInTime.date == d;
        if k < |init| { assert init[k] == rows[k]; }
      }
    }
  }

  /** Each entry's count is the number of rows checked in on its day. */
  lemma DailyCountsAreCounts(rows: seq<Student>)
    ensures var r := DailyCounts(rows);
      forall i :: 0 <= i < |r| ==> r[i].count == CountOnDate(rows, r[i].date)
  {
    var r := DailyCounts(rows);
    forall i | 0 <= i < |r| ensures r[i].count == CountOnDate(rows, r[i].date) {
      EntryCountAt(r, i);
    }
  }

  /** The series has an entry for a day exactly when some row was checked in
      on that day. */
  lemma DailyCountsCoverDays(rows: seq<Student>, d: nat)
    ensures (exists i :: 0 <= i < |DailyCounts(rows)| && DailyCounts(rows)[i].date == d)
        <==> (exists k :: 0 <= k < |rows| && rows[k].checkInTime.date == d)
  {
    var r := DailyCounts(rows);
    CountOnDateIff(rows, d);
    if exists i :: 0 <= i < |r| && r[i].date == d {
      var i :| 0 <= i < |r| && r[i].date == d;
      EntryCountAt(r, i);
    }
    if CountOnDate(rows, d) > 0 {
      EntryCountPositiveHasEntry(r, d);
    }
  }

  // ---------------------------------------------------------------- CSV

  /** A CSV cell before `csv.writer` renders it. */
  datatype Field = TextField(text: string) | IntField(n: int) | TimeField(t: Timestamp)

  const CsvHeader: seq<Field> := [TextField("ID"), TextField("姓名"), TextField("Email"), TextField("簽到時間")]

  /** One data row: a cell under each header column, holding the id, the
      name, the email and the check-in time. */
  function CsvRow(s: Student): (r: seq<Field>)
    ensures |r| == |CsvHeader|
    ensures r[0].IntField? && r[0].n == s.id && r[3].TimeField? && r[3].t == s.checkInTime
    ensures r[1] == TextField(s.name) && r[2] == TextField(s.email)
  {
    [IntField(s.id), TextField(s.name), TextField(s.email), TimeField(s.checkInTime)]
  }
}
