/** The timetable routes: creating, updating and deleting entries under the
    one-class-per-teacher-per-slot rule, publishing every draft at once, the
    published view grouped by weekday and the period-by-day download grid.
    The entry collection is the `records` field of a ScheduleStore; the user
    collection is read as a map. The routes that change entries are reached by
    a principal only (the middleware that enforces this is not part of this
    model), so the caller is given by id. */
module Schedules {
  import opened Common
  import opened Users
  import opened ScheduleModel
  import Helpers = ScheduleHelpers

  /** The route file's own slot table: each key with its display text. */
  const TimePeriods: seq<(string, string)> := [
    ("period1", "07:55 - 08:30"),
    ("period2", "08:30 - 09:05"),
    ("period3", "09:05 - 09:40"),
    ("recess1", "09:40 - 10:10"),
    ("period4", "10:10 - 10:45"),
    ("period5", "10:45 - 11:20"),
    ("period6", "11:20 - 11:55"),
    ("recess2", "11:55 - 12:25"),
    ("period7", "12:25 - 13:00"),
    ("period8", "13:00 - 13:35"),
    ("period9", "13:35 - 14:10")
  ]

  /** `TIME_PERIODS[key]`, searching the table from index `from` on. */
  function SlotText(key: string, from: nat): (r: Option<string>)
    requires from <= |TimePeriods|
    ensures r.Some? ==> exists i :: from <= i < |TimePeriods| && TimePeriods[i] == (key, r.value)
    ensures r.None? ==> forall i :: from <= i < |TimePeriods| ==> TimePeriods[i].0 != key
    decreases |TimePeriods| - from
  {
    if from == |TimePeriods| then None
    else if TimePeriods[from].0 == key then Some(TimePeriods[from].1)
    else SlotText(key, from + 1)
  }

  /** The index of period `p`'s row in the slot table: the recesses sit
      after periods 3 and 6. */
  function RowOf(p: PeriodNumber): nat {
    if p <= 3 then p - 1 else if p <= 6 then p else p + 1
  }

  /** The time text stored with an entry of period `p`, `TIME_PERIODS[period]`. */
  function TimeOf(p: PeriodNumber): string {
    if RowOf(p) < |TimePeriods| then TimePeriods[RowOf(p)].1 else ""
  }

  /** Looking the period's key up in the table finds exactly its own row, so
      the stored time is the key's display text and is never empty. */
  lemma TimeOfIsTableEntry(p: PeriodNumber)
    ensures RowOf(p) < |TimePeriods| && TimePeriods[RowOf(p)].0 == PeriodName(p)
    ensures SlotText(PeriodName(p), 0) == Some(TimeOf(p))
    ensures TimeOf(p) != ""
  {
    var i := RowOf(p);
    if p == 1 {} else if p == 2 {} else if p == 3 {} else if p == 4 {} else if p == 5 {}
    else if p == 6 {} else if p == 7 {} else if p == 8 {} else {}
    assert TimePeriods[i].0 == PeriodName(p);
    assert forall j :: 0 <= j < |TimePeriods| && j != i ==> TimePeriods[j].0 != PeriodName(p);
  }

  /** The route table and the helpers' slot table list the same keys with the
      same display texts, in the same order. */
  lemma RouteTableMatchesHelperTable()
    ensures |TimePeriods| == |Helpers.TimePeriods|
    ensures forall i :: 0 <= i < |TimePeriods| ==>
              TimePeriods[i].0 == Helpers.TimePeriods[i].key
              && TimePeriods[i].1 == Helpers.TimePeriods[i].display
  {
  }

  // ---------------------------------------------------------------------------
  // Validation and the conflict test

  /** The request body of POST / and PUT /:id; an absent or empty teacherId is None. */
  datatype ScheduleBody = ScheduleBody(teacherId: Option<Id>, day: string, period: string,
                                       subject: string, className: string)

  /** The checks both POST and PUT run: a weekday, a teaching period, and a
      non-empty subject and class. */
  predicate FieldsValid(b: ScheduleBody) {
    ParseDay(b.day).Some? && ParsePeriod(b.period).Some? && b.subject != "" && b.className != ""
  }

  /** POST also requires a teacherId. */
  predicate CreateBodyValid(b: ScheduleBody) {
    b.teacherId.Some? && FieldsValid(b)
  }

  predicate IsTeacher(users: map<Id, User>, id: Id) {
    id in users && users[id].role == Teacher
  }

  /** `Schedule.findOne({teacherId, day, period[, _id: {$ne: exclude}]})` finds a document. */
  predicate Conflicts(rs: seq<Schedule>, teacher: Id, day: Day, period: PeriodNumber, exclude: Option<Id>) {
    exists i | 0 <= i < |rs| :: rs[i].teacherId == teacher && rs[i].day == day && rs[i].period == period
                                && (exclude.None? || rs[i].id != exclude.value)
  }

  /** Appending an entry keeps the slots unique exactly when the create
      conflict test finds nothing. */
  lemma AppendKeepsSlotsUnique(rs: seq<Schedule>, s: Schedule)
    requires UniqueSlots(rs)
    ensures UniqueSlots(rs + [s]) <==> !Conflicts(rs, s.teacherId, s.day, s.period, None)
  {
    var t := rs + [s];
    if Conflicts(rs, s.teacherId, s.day, s.period, None) {
      var i :| 0 <= i < |rs| && rs[i].teacherId == s.teacherId && rs[i].day == s.day && rs[i].period == s.period;
      assert SameSlot(t[i], t[|rs|]);
    } else {
      forall i, j | 0 <= i < j < |t|
        ensures !SameSlot(t[i], t[j])
      {
        if j < |rs| {
          assert t[i] == rs[i] && t[j] == rs[j];
        }
      }
    }
  }

  /** Replacing the entry with id `s.id` keeps the slots unique exactly when the
      update conflict test, which skips that id, finds nothing. */
  lemma ReplaceKeepsSlotsUnique(rs: seq<Schedule>, i: nat, s: Schedule)
    requires UniqueSlots(rs) && UniqueIds(rs)
    requires i < |rs| && rs[i].id == s.id
    ensures UniqueSlots(rs[i := s]) <==> !Conflicts(rs, s.teacherId, s.day, s.period, Some(s.id))
  {
    var t := rs[i := s];
    if Conflicts(rs, s.teacherId, s.day, s.period, Some(s.id)) {
      var k :| 0 <= k < |rs| && rs[k].teacherId == s.teacherId && rs[k].day == s.day
                && rs[k].period == s.period && rs[k].id != s.id;
      assert k != i && t[k] == rs[k];
      if k < i {
        assert SameSlot(t[k], t[i]);
      } else {
        assert SameSlot(t[i], t[k]);
      }
    } else {
      forall a, b | 0 <= a < b < |t|
        ensures !SameSlot(t[a], t[b])
      {
        if a == i {
          assert rs[b].id != s.id;
        } else if b == i {
          assert rs[a].id != s.id;
        }
      }
    }
  }

  /** `findById`: the position of the entry with id `id`. */
  function IndexOfId(rs: seq<Schedule>, id: Id): (r: Option<nat>)
    ensures r.Some? ==> r.value < |rs| && rs[r.value].id == id
    ensures r.Some? ==> forall k :: 0 <= k < r.value ==> rs[k].id != id
    ensures r.None? <==> forall k :: 0 <= k < |rs| ==> rs[k].id != id
  {
    if rs == [] then None
    else if rs[0].id == id then Some(0)
    else match IndexOfId(rs[1..], id)
      case None => None
      case Some(k) => Some(k + 1)
  }

  /** How many entries are still drafts. */
  function Unpublished(rs: seq<Schedule>): nat
    decreases |rs|
  {
    if rs == [] then 0
    else Unpublished(rs[..|rs| - 1]) + (if rs[|rs| - 1].isPublished then 0 else 1)
  }

  /** The draft count is zero exactly when every entry is published. */
  lemma {:induction false} UnpublishedZeroIffAllPublished(rs: seq<Schedule>)
    ensures Unpublished(rs) == 0 <==> forall k :: 0 <= k < |rs| ==> rs[k].isPublished
    decreases |rs|
  {
    if rs != [] {
      var init := rs[..|rs| - 1];
      UnpublishedZeroIffAllPublished(init);
      assert forall k :: 0 <= k < |init| ==> init[k] == rs[k];
    }
  }

  /** `updateMany({isPublished: false}, {isPublished: true})` on the entries. */
  function PublishAll(rs: seq<Schedule>): (r: seq<Schedule>)
    ensures |r| == |rs|
  {
    seq(|rs|, k requires 0 <= k < |rs| => rs[k].(isPublished := true))
  }

  /** Publishing leaves no draft and touches nothing but the flag; a second
      publish finds nothing to do and changes nothing. */
  lemma PublishTwiceChangesNothing(rs: seq<Schedule>)
    ensures Unpublished(PublishAll(rs)) == 0
    ensures forall k :: 0 <= k < |rs| ==> PublishAll(rs)[k].(isPublished := rs[k].isPublished) == rs[k]
    ensures PublishAll(PublishAll(rs)) == PublishAll(rs)
    ensures Unpublished(rs) == 0 ==> PublishAll(rs) == rs
  {
    var p := PublishAll(rs);
    assert forall k :: 0 <= k < |p| ==> p[k].isPublished;
    UnpublishedZeroIffAllPublished(p);
    assert PublishAll(p) == p by {
      forall k | 0 <= k < |p|
        ensures PublishAll(p)[k] == p[k]
      {
      }
    }
    if Unpublished(rs) == 0 {
      UnpublishedZeroIffAllPublished(rs);
      forall k | 0 <= k < |rs|
        ensures p[k] == rs[k]
      {
        assert rs[k].isPublished;
      }
    }
  }

  // ---------------------------------------------------------------------------
  // The published view

  /** Whether the query `{isPublished: true[, teacherId]}` matches an entry. */
  predicate Visible(s: Schedule, teacher: Option<Id>) {
    s.isPublished && (teacher.None? || s.teacherId == teacher.value)
  }

  /** What the query filter lets through, by role: only published entries; a
      teacher's own only; a principal's chosen teacher's only when one is
      named. */
  lemma VisibleByRole(role: Role, caller: Id, requested: Option<Id>, s: Schedule)
    ensures Visible(s, QueryTeacher(role, caller, requested)) <==>
              && s.isPublished
              && (role == Teacher ==> s.teacherId == caller)
              && (role == Principal && requested.Some? ==> s.teacherId == requested.value)
  {
  }

  /** A listed entry, with the display time of its period as `timeSlot`. */
  datatype Listed = Listed(entry: Schedule, timeSlot: string)

  /** Entry `s` appears as `x` in day `d`'s bucket. */
  predicate Lists(s: Schedule, teacher: Option<Id>, d: Day, x: Listed) {
    Visible(s, teacher) && s.day == d && x == Listed(s, TimeOf(s.period))
  }

  /** The entries the listing puts in day `d`'s bucket, in the order of `rs`. */
  function Bucket(rs: seq<Schedule>, teacher: Option<Id>, d: Day): seq<Listed>
    decreases |rs|
  {
    if rs == [] then []
    else
      var s := rs[|rs| - 1];
      Bucket(rs[..|rs| - 1], teacher, d)
        + (if Visible(s, teacher) && s.day == d then [Listed(s, TimeOf(s.period))] else [])
  }

  /** A bucket holds exactly the matching entries of its day, each tagged with
      its period's display time. */
  lemma {:induction false} BucketContents(rs: seq<Schedule>, teacher: Option<Id>, d: Day, x: Listed)
    ensures x in Bucket(rs, teacher, d) <==> exists i :: 0 <= i < |rs| && Lists(rs[i], teacher, d, x)
    decreases |rs|
  {
    if rs != [] {
      var n := |rs| - 1;
      var init := rs[..n];
      BucketContents(init, teacher, d, x);
      assert Bucket(rs, teacher, d)
             == Bucket(init, teacher, d) + (if Lists(rs[n], teacher, d, x) || (Visible(rs[n], teacher) && rs[n].day == d)
                                             then [Listed(rs[n], TimeOf(rs[n].period))] else []);
      if exists i :: 0 <= i < |rs| && Lists(rs[i], teacher, d, x) {
        var i :| 0 <= i < |rs| && Lists(rs[i], teacher, d, x);
        if i < n {
          assert Lists(init[i], teacher, d, x);
        }
      }
      if exists i :: 0 <= i < n && Lists(init[i], teacher, d, x) {
        var i :| 0 <= i < n && Lists(init[i], teacher, d, x);
        assert Lists(rs[i], teacher, d, x);
      }
    }
  }

  /** The query's `.sort({day: 1, period: 1})` as the day buckets see it:
      the entries of period 1, then those of period 2, and so on, each group
      in store order. The period names differ in one digit only, so their text
      order is their numeric order; the day key only orders across buckets. */
  function PeriodOrder(rs: seq<Schedule>, from: int): seq<Schedule>
    requires 1 <= from <= 10
    decreases 10 - from
  {
    if from == 10 then [] else OfPeriod(rs, from) + PeriodOrder(rs, from + 1)
  }

  /** The entries of period `p`, in store order. */
  function OfPeriod(rs: seq<Schedule>, p: PeriodNumber): seq<Schedule>
    decreases |rs|
  {
    if rs == [] then []
    else OfPeriod(rs[..|rs| - 1], p) + (if rs[|rs| - 1].period == p then [rs[|rs| - 1]] else [])
  }

  predicate SortedByPeriod(rs: seq<Schedule>) {
    forall a, b :: 0 <= a < b < |rs| ==> rs[a].period <= rs[b].period
  }

  lemma {:induction false} OfPeriodHasOnlyThatPeriod(rs: seq<Schedule>, p: PeriodNumber)
    ensures forall k :: 0 <= k < |OfPeriod(rs, p)| ==> OfPeriod(rs, p)[k].period == p
    decreases |rs|
  {
    if rs != [] {
      OfPeriodHasOnlyThatPeriod(rs[..|rs| - 1], p);
    }
  }

  /** The sorted sequence is in period order, and holds only periods from
      `from` on. */
  lemma {:induction false} PeriodOrderIsSorted(rs: seq<Schedule>, from: int)
    requires 1 <= from <= 10
    ensures forall k :: 0 <= k < |PeriodOrder(rs, from)| ==> from <= PeriodOrder(rs, from)[k].period
    ensures SortedByPeriod(PeriodOrder(rs, from))
    decreases 10 - from
  {
    if from < 10 {
      PeriodOrderIsSorted(rs, from + 1);
      OfPeriodHasOnlyThatPeriod(rs, from);
      var head := OfPeriod(rs, from);
      var o := PeriodOrder(rs, from);
      assert o == head + PeriodOrder(rs, from + 1);
      assert forall k :: |head| <= k < |o| ==> o[k] == PeriodOrder(rs, from + 1)[k - |head|];
    }
  }

  lemma {:induction false} PeriodOrderOfNothing(from: int)
    requires 1 <= from <= 10
    ensures PeriodOrder([], from) == []
    decreases 10 - from
  {
    if from < 10 {
      PeriodOrderOfNothing(from + 1);
    }
  }

  lemma {:induction false} PeriodOrderSnoc(rs: seq<Schedule>, x: Schedule, from: int)
    requires 1 <= from <= 10
    ensures multiset(PeriodOrder(rs + [x], from))
            == multiset(PeriodOrder(rs, from)) + (if from <= x.period then multiset{x} else multiset{})
    decreases 10 - from
  {
    if from < 10 {
      PeriodOrderSnoc(rs, x, from + 1);
      OfPeriodSnoc(rs, x, from);
      var tail := if x.period == from then [x] else [];
      assert PeriodOrder(rs + [x], from) == OfPeriod(rs, from) + tail + PeriodOrder(rs + [x], from + 1);
    }
  }

  lemma OfPeriodSnoc(rs: seq<Schedule>, x: Schedule, p: PeriodNumber)
    ensures OfPeriod(rs + [x], p) == OfPeriod(rs, p) + (if x.period == p then [x] else [])
  {
    var ext := rs + [x];
    assert ext[..|rs|] == rs && ext[|ext| - 1] == x;
  }

  /** Sorting loses and adds nothing. */
  lemma {:induction false} PeriodOrderIsPermutation(rs: seq<Schedule>)
    ensures multiset(PeriodOrder(rs, 1)) == multiset(rs)
    decreases |rs|
  {
    if rs == [] {
      PeriodOrderOfNothing(1);
    } else {
      var init := rs[..|rs| - 1];
      var last := rs[|rs| - 1];
      assert init + [last] == rs;
      calc {
        multiset(PeriodOrder(rs, 1));
        { PeriodOrderSnoc(init, last, 1); }
        multiset(PeriodOrder(init, 1)) + multiset{last};
        { PeriodOrderIsPermutation(init); }
        multiset(init) + multiset{last};
        multiset(init + [last]);
      }
    }
  }

  /** A bucket filled from a period-sorted sequence is in period order. */
  lemma {:induction false} BucketKeepsPeriodOrder(rs: seq<Schedule>, teacher: Option<Id>, d: Day)
    requires SortedByPeriod(rs)
    ensures var b := Bucket(rs, teacher, d);
      forall i, j :: 0 <= i < j < |b| ==> b[i].entry.period <= b[j].entry.period
    decreases |rs|
  {
    if rs != [] {
      var n := |rs| - 1;
      var init := rs[..n];
      BucketKeepsPeriodOrder(init, teacher, d);
      var b := Bucket(init, teacher, d);
      forall i | 0 <= i < |b|
        ensures b[i].entry.period <= rs[n].period
      {
        BucketContents(init, teacher, d, b[i]);
        var k :| 0 <= k < |init| && Lists(init[k], teacher, d, b[i]);
        assert init[k] == rs[k];
      }
    }
  }

  /** The listing's bucket for `d`, filled from the sorted query result, holds
      exactly the matching entries of the store. */
  lemma SortedBucketContents(rs: seq<Schedule>, teacher: Option<Id>, d: Day, x: Listed)
    ensures x in Bucket(PeriodOrder(rs, 1), teacher, d) <==> exists i :: 0 <= i < |rs| && Lists(rs[i], teacher, d, x)
  {
    var o := PeriodOrder(rs, 1);
    PeriodOrderIsPermutation(rs);
    BucketContents(o, teacher, d, x);
    if exists j :: 0 <= j < |o| && Lists(o[j], teacher, d, x) {
      var j :| 0 <= j < |o| && Lists(o[j], teacher, d, x);
      assert o[j] in multiset(rs);
      var i :| 0 <= i < |rs| && rs[i] == o[j];
    }
    if exists i :: 0 <= i < |rs| && Lists(rs[i], teacher, d, x) {
      var i :| 0 <= i < |rs| && Lists(rs[i], teacher, d, x);
      assert rs[i] in multiset(o);
      var j :| 0 <= j < |o| && o[j] == rs[i];
    }
  }

  // ---------------------------------------------------------------------------
  // The download grid

  /** One row of the exported grid: Period, Time and one column per weekday. */
  datatype Row = Row(period: string, time: string, monday: string, tuesday: string,
                     wednesday: string, thursday: string, friday: string)

  function Cell(row: Row, d: Day): string {
    match d
    case Monday => row.monday
    case Tuesday => row.tuesday
    case Wednesday => row.wednesday
    case Thursday => row.thursday
    case Friday => row.friday
  }

  /** `row[Day] = value`, the capitalised day naming the column. */
  function WithCell(row: Row, d: Day, value: string): (r: Row)
    ensures Cell(r, d) == value
    ensures forall e :: e != d ==> Cell(r, e) == Cell(row, e)
    ensures r.period == row.period && r.time == row.time
  {
    match d
    case Monday => row.(monday := value)
    case Tuesday => row.(tuesday := value)
    case Wednesday => row.(wednesday := value)
    case Thursday => row.(thursday := value)
    case Friday => row.(friday := value)
  }

  function CellLabel(s: Schedule): string {
    s.subject + " (" + s.className + ")"
  }

  /** Whether a matching entry of slot `key` on day `d` is written into the grid. */
  predicate InCell(s: Schedule, teacher: Option<Id>, key: string, d: Day) {
    Visible(s, teacher) && PeriodName(s.period) == key && s.day == d
  }

  /** The text the grid shows in cell (key, d): the label of the last matching
      entry, or empty. */
  function CellText(rs: seq<Schedule>, teacher: Option<Id>, key: string, d: Day): string
    decreases |rs|
  {
    if rs == [] then ""
    else if InCell(rs[|rs| - 1], teacher, key, d) then CellLabel(rs[|rs| - 1])
    else CellText(rs[..|rs| - 1], teacher, key, d)
  }

  /** A cell is empty exactly when no entry matches it; otherwise it shows the
      label of the last matching entry. */
  lemma {:induction false} CellTextIsLastMatch(rs: seq<Schedule>, teacher: Option<Id>, key: string, d: Day)
    ensures CellText(rs, teacher, key, d) == "" <==>
              forall k :: 0 <= k < |rs| ==> !InCell(rs[k], teacher, key, d)
    ensures CellText(rs, teacher, key, d) != "" ==>
              exists k :: 0 <= k < |rs| && InCell(rs[k], teacher, key, d)
                          && CellText(rs, teacher, key, d) == CellLabel(rs[k])
                          && forall m :: k < m < |rs| ==> !InCell(rs[m], teacher, key, d)
    decreases |rs|
  {
    if rs != [] {
      var n := |rs| - 1;
      var init := rs[..n];
      CellTextIsLastMatch(init, teacher, key, d);
      assert forall k :: 0 <= k < n ==> init[k] == rs[k];
      if InCell(rs[n], teacher, key, d) {
        assert |CellLabel(rs[n])| > 0;
      }
    }
  }

  /** The row the download builds for table row `i`. */
  ghost predicate IsDownloadRow(rs: seq<Schedule>, teacher: Option<Id>, i: nat, row: Row)
    requires i < |TimePeriods|
  {
    var key := TimePeriods[i].0;
    var range := TimePeriods[i].1;
    if StartsWith(key, "period") then
      row.period == key[6..] && row.time == range
      && forall d :: Cell(row, d) == CellText(rs, teacher, key, d)
    else
      row == Row("", range, if key == "recess1" then "Recess I" else "Recess II", "", "", "", "")
  }

  /** The table's layout as the grid sees it: rows 3 and 7 are the recesses,
      every other row is the period whose number the Period column shows. */
  lemma GridLayout()
    ensures TimePeriods[3].0 == "recess1" && TimePeriods[7].0 == "recess2"
    ensures !StartsWith(TimePeriods[3].0, "period") && !StartsWith(TimePeriods[7].0, "period")
    ensures forall p: PeriodNumber :: StartsWith(TimePeriods[RowOf(p)].0, "period")
              && TimePeriods[RowOf(p)].0[6..] == [('0' as int + p) as char]
  {
    assert TimePeriods[3].0[..6][0] == 'r' && TimePeriods[7].0[..6][0] == 'r';
    forall p: PeriodNumber
      ensures StartsWith(TimePeriods[RowOf(p)].0, "period")
      ensures TimePeriods[RowOf(p)].0[6..] == [('0' as int + p) as char]
    {
      TimeOfIsTableEntry(p);
      assert TimePeriods[RowOf(p)].0 == PeriodName(p);
    }
  }

  /** The bucketing `forEach` of GET /: each matching entry of the query result
      is appended to its day's bucket. */
  method GroupByDay(found: seq<Schedule>, teacher: Option<Id>) returns (grouped: map<Day, seq<Listed>>)
    ensures grouped.Keys == AllDays
    ensures forall d: Day :: d in grouped
    ensures forall d :: d in grouped ==> grouped[d] == Bucket(found, teacher, d)
  {
    grouped := map[Monday := [], Tuesday := [], Wednesday := [], Thursday := [], Friday := []];
    for i := 0 to |found|
      invariant grouped.Keys == AllDays
      invariant forall d :: d in grouped ==> grouped[d] == Bucket(found[..i], teacher, d)
    {
      assert found[..i + 1][..i] == found[..i];
      var s := found[i];
      AllDaysComplete(s.day);
      if Visible(s, teacher) {
        grouped := grouped[s.day := grouped[s.day] + [Listed(s, TimeOf(s.period))]];
      }
    }
    assert found[..|found|] == found;
    forall d: Day
      ensures d in grouped
    {
      AllDaysComplete(d);
    }
  }

  // ---------------------------------------------------------------------------
  // The entry collection

  class ScheduleStore {
    var records: seq<Schedule>
    var nextId: Id

    /** The unique index holds, ids are unique, and `nextId` is fresh. */
    ghost predicate Valid()
      reads this
    {
      UniqueSlots(records) && UniqueIds(records)
      && forall k :: 0 <= k < |records| ==> records[k].id < nextId
    }

    constructor ()
      ensures Valid() && records == []
    {
      records := [];
      nextId := 0;
    }

    /** POST /: validate, check the teacher, check the slot, then insert a draft. */
    method Create(users: map<Id, User>, caller: Id, body: ScheduleBody) returns (r: Result<Schedule>)
      requires Valid()
      modifies this
      ensures Valid()
      ensures !CreateBodyValid(body) ==> r == Err(ValidationFailed)
      ensures CreateBodyValid(body) && !IsTeacher(users, body.teacherId.value) ==> r == Err(NotFound)
      ensures CreateBodyValid(body) && IsTeacher(users, body.teacherId.value)
              && Conflicts(old(records), body.teacherId.value, ParseDay(body.day).value,
                           ParsePeriod(body.period).value, None)
              ==> r == Err(Conflict)
      ensures CreateBodyValid(body) && IsTeacher(users, body.teacherId.value)
              && !Conflicts(old(records), body.teacherId.value, ParseDay(body.day).value,
                            ParsePeriod(body.period).value, None)
              ==> (r.Ok? <==> Trim(body.subject) != "" && Trim(body.className) != "")
      ensures CreateBodyValid(body) && IsTeacher(users, body.teacherId.value)
              && !Conflicts(old(records), body.teacherId.value, ParseDay(body.day).value,
                            ParsePeriod(body.period).value, None)
              && (Trim(body.subject) == "" || Trim(body.className) == "")
              ==> r == Err(ServerError)
      ensures r.Err? ==> r.error != ServerError || Trim(body.subject) == "" || Trim(body.className) == ""
      ensures r.Err? ==> records == old(records) && nextId == old(nextId)
      ensures r.Ok? ==>
                records == old(records) + [r.value]
                && r.value == Schedule(old(nextId), body.teacherId.value, users[body.teacherId.value].name,
                                       ParseDay(body.day).value, ParsePeriod(body.period).value,
                                       TimeOf(ParsePeriod(body.period).value),
                                       Trim(body.subject), Trim(body.className), false, caller)
    {
      if !CreateBodyValid(body) {
        return Err(ValidationFailed);
      }
      var teacher := body.teacherId.value;
      if !IsTeacher(users, teacher) {
        return Err(NotFound);
      }
      var day := ParseDay(body.day).value;
      var period := ParsePeriod(body.period).value;
      if Conflicts(records, teacher, day, period, None) {
        return Err(Conflict);
      }
      var s := Schedule(nextId, teacher, users[teacher].name, day, period, TimeOf(period),
                        Trim(body.subject), Trim(body.className), false, caller);
      TimeOfIsTableEntry(period);
      if !SchemaAccepts(s) {
        return Err(ServerError);
      }
      AppendKeepsSlotsUnique(records, s);
      records := records + [s];
      nextId := nextId + 1;
      r := Ok(s);
    }

    /** PUT /:id: validate, find the entry, check the new slot against every
        other entry of the same teacher, then change the slot and the texts. */
    method Update(id: Id, body: ScheduleBody) returns (r: Result<Schedule>)
      requires Valid()
      modifies this
      ensures Valid()
      ensures nextId == old(nextId)
      ensures !FieldsValid(body) ==> r == Err(ValidationFailed)
      ensures FieldsValid(body) && IndexOfId(old(records), id).None? ==> r == Err(NotFound)
      ensures FieldsValid(body) && IndexOfId(old(records), id).Some?
              && Conflicts(old(records), old(records)[IndexOfId(old(records), id).value].teacherId,
                           ParseDay(body.day).value, ParsePeriod(body.period).value, Some(id))
              ==> r == Err(Conflict)
      ensures FieldsValid(body) && IndexOfId(old(records), id).Some?
              && !Conflicts(old(records), old(records)[IndexOfId(old(records), id).value].teacherId,
                            ParseDay(body.day).value, ParsePeriod(body.period).value, Some(id))
              ==> (r.Ok? <==> Trim(body.subject) != "" && Trim(body.className) != "")
                  && (r.Err? ==> r == Err(ServerError))
      ensures r.Err? ==> records == old(records)
      ensures r.Err? ==> r.error != ServerError || Trim(body.subject) == "" || Trim(body.className) == ""
      ensures r.Ok? ==>
                FieldsValid(body) && IndexOfId(old(records), id).Some?
                && var i := IndexOfId(old(records), id).value;
                   var p := ParsePeriod(body.period).value;
                   r.value == old(records)[i].(day := ParseDay(body.day).value, period := p, time := TimeOf(p),
                                               subject := Trim(body.subject), className := Trim(body.className))
                   && records == old(records)[i := r.value]
    {
      if !FieldsValid(body) {
        return Err(ValidationFailed);
      }
      var found := IndexOfId(records, id);
      if found.None? {
        return Err(NotFound);
      }
      var i := found.value;
      var day := ParseDay(body.day).value;
      var period := ParsePeriod(body.period).value;
      if Conflicts(records, records[i].teacherId, day, period, Some(id)) {
        return Err(Conflict);
      }
      var s := records[i].(day := day, period := period, time := TimeOf(period),
                           subject := Trim(body.subject), className := Trim(body.className));
      TimeOfIsTableEntry(period);
      if !SchemaAccepts(s) {
        return Err(ServerError);
      }
      ReplaceKeepsSlotsUnique(records, i, s);
      records := records[i := s];
      r := Ok(s);
    }

    /** DELETE /:id: remove the entry with that id, or report it missing. */
    method Delete(id: Id) returns (r: Result<Schedule>)
      requires Valid()
      modifies this
      ensures Valid()
      ensures nextId == old(nextId)
      ensures IndexOfId(old(records), id).None? ==> r == Err(NotFound) && records == old(records)
      ensures IndexOfId(old(records), id).Some? ==>
                var i := IndexOfId(old(records), id).value;
                r == Ok(old(records)[i]) && records == old(records)[..i] + old(records)[i + 1..]
    {
      var found := IndexOfId(records, id);
      if found.None? {
        return Err(NotFound);
      }
      var i := found.value;
      r := Ok(records[i]);
      ghost var before := records;
      records := records[..i] + records[i + 1..];
      assert forall k :: 0 <= k < |records| ==> records[k] == before[if k < i then k else k + 1];
    }

    /** POST /publish: every draft becomes published; the answer is how many
        changed. */
    method Publish() returns (count: nat)
      requires Valid()
      modifies this
      ensures Valid()
      ensures nextId == old(nextId)
      ensures records == PublishAll(old(records))
      ensures count == Unpublished(old(records))
      ensures Unpublished(records) == 0
    {
      count := 0;
      var i := 0;
      while i < |records|
        invariant 0 <= i <= |records| == |old(records)|
        invariant nextId == old(nextId)
        invariant forall k :: 0 <= k < i ==> records[k] == old(records)[k].(isPublished := true)
        invariant forall k :: i <= k < |records| ==> records[k] == old(records)[k]
        invariant count == Unpublished(old(records)[..i])
      {
        assert old(records)[..i + 1][..i] == old(records)[..i];
        if !records[i].isPublished {
          records := records[i := records[i].(isPublished := true)];
          count := count + 1;
        }
        i := i + 1;
      }
      assert old(records)[..i] == old(records);
      assert records == PublishAll(old(records));
      assert forall a, b :: 0 <= a < |records| && 0 <= b < |records| ==>
               SameSlot(records[a], records[b]) == SameSlot(old(records)[a], old(records)[b]);
      UnpublishedZeroIffAllPublished(records);
    }

    /** GET /: the published entries the caller may see, bucketed by weekday. */
    method List(role: Role, caller: Id, requested: Option<Id>) returns (grouped: map<Day, seq<Listed>>)
      ensures grouped.Keys == AllDays
      ensures forall d: Day :: d in grouped
      ensures forall d :: d in grouped ==>
                grouped[d] == Bucket(PeriodOrder(records, 1), QueryTeacher(role, caller, requested), d)
      ensures forall d, x :: d in grouped ==>
                (x in grouped[d] <==>
                   exists k :: 0 <= k < |records| && Lists(records[k], QueryTeacher(role, caller, requested), d, x))
      ensures forall d, i, j :: d in grouped && 0 <= i < j < |grouped[d]| ==>
                grouped[d][i].entry.period <= grouped[d][j].entry.period
    {
      var teacher := QueryTeacher(role, caller, requested);
      var found := PeriodOrder(records, 1);
      grouped := GroupByDay(found, teacher);
      forall d, x | d in grouped
        ensures x in grouped[d] <==> exists k :: 0 <= k < |records| && Lists(records[k], teacher, d, x)
      {
        SortedBucketContents(records, teacher, d, x);
      }
      PeriodOrderIsSorted(records, 1);
      forall d | d in grouped
        ensures forall i, j :: 0 <= i < j < |grouped[d]| ==> grouped[d][i].entry.period <= grouped[d][j].entry.period
      {
        BucketKeepsPeriodOrder(found, teacher, d);
        assert grouped[d] == Bucket(found, teacher, d);
      }
    }

    /** GET /download: the grid rows, one per slot-table row, in table order. */
    method Download(role: Role, caller: Id, requested: Option<Id>) returns (rows: seq<Row>)
      ensures |rows| == |TimePeriods|
      ensures forall i :: 0 <= i < |rows| ==> rows[i].time == TimePeriods[i].1
      ensures forall i :: 0 <= i < |rows| ==>
                IsDownloadRow(records, QueryTeacher(role, caller, requested), i, rows[i])
    {
      var teacher := QueryTeacher(role, caller, requested);
      rows := [];
      for i := 0 to |TimePeriods|
        invariant |rows| == i
        invariant forall k :: 0 <= k < i ==> rows[k].time == TimePeriods[k].1
        invariant forall k :: 0 <= k < i ==> IsDownloadRow(records, teacher, k, rows[k])
      {
        var key := TimePeriods[i].0;
        var range := TimePeriods[i].1;
        if StartsWith(key, "period") {
          var row := PeriodRow(teacher, key, range);
          rows := rows + [row];
        } else {
          rows := rows + [Row("", range, if key == "recess1" then "Recess I" else "Recess II", "", "", "", "")];
        }
      }
    }

    /** The row of one teaching period: each matching entry writes its label
        into its day's column, a later one over an earlier one. */
    method PeriodRow(teacher: Option<Id>, key: string, range: string) returns (row: Row)
      requires StartsWith(key, "period")
      ensures row.period == key[6..] && row.time == range
      ensures forall d :: Cell(row, d) == CellText(records, teacher, key, d)
    {
      row := Row(key[6..], range, "", "", "", "", "");
      for j := 0 to |records|
        invariant row.period == key[6..] && row.time == range
        invariant forall d :: Cell(row, d) == CellText(records[..j], teacher, key, d)
      {
        assert records[..j + 1][..j] == records[..j];
        var s := records[j];
        if Visible(s, teacher) && PeriodName(s.period) == key {
          row := WithCell(row, s.day, CellLabel(s));
        }
      }
      assert records[..|records|] == records;
    }
  }
}
