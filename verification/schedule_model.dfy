/** The timetable entry document: its closed day and period enumerations, the
    trimming of its text fields, what the schema accepts on save, and the
    unique (teacher, day, period) index. */
module ScheduleModel {
  import opened Common

  datatype Day = Monday | Tuesday | Wednesday | Thursday | Friday

  const AllDays: set<Day> := {Monday, Tuesday, Wednesday, Thursday, Friday}

  lemma AllDaysComplete(d: Day)
    ensures d in AllDays
  {
    match d
    case Monday =>
    case Tuesday =>
    case Wednesday =>
    case Thursday =>
    case Friday =>
  }

  function DayName(d: Day): string {
    match d
    case Monday => "monday"
    case Tuesday => "tuesday"
    case Wednesday => "wednesday"
    case Thursday => "thursday"
    case Friday => "friday"
  }

  /** The `isIn` check on a day: only the five lower-case weekday names pass. */
  function ParseDay(s: string): (r: Option<Day>)
    ensures r.Some? ==> DayName(r.value) == s
    ensures r.None? ==> forall d: Day :: DayName(d) != s
  {
    if s == "monday" then Some(Monday)
    else if s == "tuesday" then Some(Tuesday)
    else if s == "wednesday" then Some(Wednesday)
    else if s == "thursday" then Some(Thursday)
    else if s == "friday" then Some(Friday)
    else None
  }

  /** A teaching period; the two recess slots are not storable. */
  type PeriodNumber = n: int | 1 <= n <= 9 witness 1

  function PeriodName(p: PeriodNumber): string {
    "period" + [('0' as int + p) as char]
  }

  /** The `isIn` check on a period: only "period1" .. "period9" pass. */
  function ParsePeriod(s: string): (r: Option<PeriodNumber>)
    ensures r.Some? ==> PeriodName(r.value) == s
    ensures r.None? ==> forall p: PeriodNumber :: PeriodName(p) != s
  {
    if |s| == 7 && s[..6] == "period" && '1' <= s[6] <= '9' then
      var p: PeriodNumber := s[6] as int - '0' as int;
      assert PeriodName(p) == s[..6] + [s[6]] == s;
      Some(p)
    else None
  }

  lemma DayNamesRoundTrip(d: Day)
    ensures ParseDay(DayName(d)) == Some(d)
  {
  }

  lemma PeriodNamesRoundTrip(p: PeriodNumber)
    ensures ParsePeriod(PeriodName(p)) == Some(p)
  {
    var s := PeriodName(p);
    assert s[..6] == "period";
  }

  /** One timetable entry. Timestamps are not modelled. */
  datatype Schedule = Schedule(
    id: Id,
    teacherId: Id,
    teacherName: string,
    day: Day,
    period: PeriodNumber,
    time: string,
    subject: string,
    className: string,
    isPublished: bool,
    createdBy: Id)

  // ---------------------------------------------------------------------------
  // The `trim: true` setter

  /** The characters JavaScript's `String.prototype.trim` removes. */
  predicate IsJsWhitespace(c: char) {
    var n := c as int;
    n == 0x09 || n == 0x0A || n == 0x0B || n == 0x0C || n == 0x0D || n == 0x20
    || n == 0xA0 || n == 0x1680 || (0x2000 <= n <= 0x200A) || n == 0x2028 || n == 0x2029
    || n == 0x202F || n == 0x205F || n == 0x3000 || n == 0xFEFF
  }

  /** How many whitespace characters open `s`. */
  function Lead(s: string): (n: nat)
    ensures n <= |s|
    ensures forall k :: 0 <= k < n ==> IsJsWhitespace(s[k])
    ensures n < |s| ==> !IsJsWhitespace(s[n])
    decreases |s|
  {
    if s != [] && IsJsWhitespace(s[0]) then 1 + Lead(s[1..]) else 0
  }

  /** How many whitespace characters close `s`. */
  function Trail(s: string): (n: nat)
    ensures n <= |s|
    ensures forall k :: |s| - n <= k < |s| ==> IsJsWhitespace(s[k])
    ensures n < |s| ==> !IsJsWhitespace(s[|s| - 1 - n])
    decreases |s|
  {
    if s != [] && IsJsWhitespace(s[|s| - 1]) then 1 + Trail(s[..|s| - 1]) else 0
  }

  /** The stored value of a trimmed field: the text between the first and the
      last character that is not whitespace, or empty when there is none. */
  function Trim(s: string): (r: string)
    ensures Lead(s) + |r| <= |s| && r == s[Lead(s)..Lead(s) + |r|]
    ensures forall k :: 0 <= k < Lead(s) ==> IsJsWhitespace(s[k])
    ensures forall k :: Lead(s) + |r| <= k < |s| ==> IsJsWhitespace(s[k])
    ensures r != [] ==> !IsJsWhitespace(r[0]) && !IsJsWhitespace(r[|r| - 1])
  {
    if Lead(s) == |s| then []
    else
      assert Lead(s) < |s| - Trail(s);
      s[Lead(s)..|s| - Trail(s)]
  }

  /** A field that passes the non-empty check but holds only whitespace is
      trimmed to the empty string, which the schema's `required` refuses. */
  lemma TrimEmptyExactlyWhenBlank(s: string)
    ensures Trim(s) == [] <==> forall k :: 0 <= k < |s| ==> IsJsWhitespace(s[k])
  {
    if forall k :: 0 <= k < |s| ==> IsJsWhitespace(s[k]) {
      BlankIsAllLead(s);
    }
  }

  /** Text with no whitespace at either end is stored unchanged, so trimming
      a stored value again changes nothing. */
  lemma TrimKeepsTrimmed(s: string)
    requires s == [] || (!IsJsWhitespace(s[0]) && !IsJsWhitespace(s[|s| - 1]))
    ensures Trim(s) == s
  {
    if s != [] {
      assert Lead(s) == 0 && Trail(s) == 0;
      assert s[0..|s|] == s;
    }
  }

  lemma TrimIsIdempotent(s: string)
    ensures Trim(Trim(s)) == Trim(s)
  {
    TrimKeepsTrimmed(Trim(s));
  }

  lemma {:induction false} BlankIsAllLead(s: string)
    requires forall k :: 0 <= k < |s| ==> IsJsWhitespace(s[k])
    ensures Lead(s) == |s|
    decreases |s|
  {
    if s != [] {
      BlankIsAllLead(s[1..]);
    }
  }

  // ---------------------------------------------------------------------------
  // The schema and its unique index

  /** What the schema demands of a document on save: the required strings
      `time`, `subject` and `class` are non-empty (the id fields are always set
      in this model). */
  predicate SchemaAccepts(s: Schedule) {
    s.time != "" && s.subject != "" && s.className != ""
  }

  /** Two entries occupy the same (teacherId, day, period) slot. */
  predicate SameSlot(a: Schedule, b: Schedule) {
    a.teacherId == b.teacherId && a.day == b.day && a.period == b.period
  }

  /** The unique compound index: no two entries share a slot. */
  predicate UniqueSlots(rs: seq<Schedule>) {
    forall i, j :: 0 <= i < j < |rs| ==> !SameSlot(rs[i], rs[j])
  }

  predicate UniqueIds(rs: seq<Schedule>) {
    forall i, j :: 0 <= i < j < |rs| ==> rs[i].id != rs[j].id
  }
}
