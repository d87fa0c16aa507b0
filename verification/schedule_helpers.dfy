/** The school day's fixed time grid and the helpers around it: the ordered
    slot table, the weekday list, the period-by-day table builder and the
    searches for the slot that covers, or follows, a clock time. The clock is
    a parameter (hours and minutes) instead of being read. */
module ScheduleHelpers {
  import opened Common

  /** One entry of the slot table: a key such as "period4" or "recess1", its
      zero-padded "HH:MM" start and end, and the text shown for it. */
  datatype Slot = Slot(key: string, start: string, end: string, display: string, isRecess: bool)

  /** The rows of the slot table. */
  const Period1: Slot := Slot("period1", "07:55", "08:30", "07:55 - 08:30", false)
  const Period2: Slot := Slot("period2", "08:30", "09:05", "08:30 - 09:05", false)
  const Period3: Slot := Slot("period3", "09:05", "09:40", "09:05 - 09:40", false)
  const Recess1: Slot := Slot("recess1", "09:40", "10:10", "09:40 - 10:10", true)
  const Period4: Slot := Slot("period4", "10:10", "10:45", "10:10 - 10:45", false)
  const Period5: Slot := Slot("period5", "10:45", "11:20", "10:45 - 11:20", false)
  const Period6: Slot := Slot("period6", "11:20", "11:55", "11:20 - 11:55", false)
  const Recess2: Slot := Slot("recess2", "11:55", "12:25", "11:55 - 12:25", true)
  const Period7: Slot := Slot("period7", "12:25", "13:00", "12:25 - 13:00", false)
  const Period8: Slot := Slot("period8", "13:00", "13:35", "13:00 - 13:35", false)
  const Period9: Slot := Slot("period9", "13:35", "14:10", "13:35 - 14:10", false)

  /** The slot table, in the order the helpers iterate it. */
  const TimePeriods: seq<Slot> :=
    [Period1, Period2, Period3, Recess1, Period4, Period5, Period6, Recess2, Period7, Period8, Period9]

  const Days: seq<string> := ["monday", "tuesday", "wednesday", "thursday", "friday"]

  /** The slot keys in table order (`Object.keys(TIME_PERIODS)`). */
  function SlotKeys(): (keys: seq<string>)
    ensures |keys| == |TimePeriods|
    ensures forall i :: 0 <= i < |keys| ==> keys[i] == TimePeriods[i].key
  {
    seq(|TimePeriods|, i requires 0 <= i < |TimePeriods| => TimePeriods[i].key)
  }

  predicate IsSlotKey(key: string) {
    key in SlotKeys()
  }

  // ---------------------------------------------------------------------------
  // The slot table's shape

  /** The eleven keys in order: three periods, the first recess, three
      periods, the second recess, three periods. */
  lemma SlotKeysInOrder()
    ensures SlotKeys() == ["period1", "period2", "period3", "recess1", "period4", "period5",
                           "period6", "recess2", "period7", "period8", "period9"]
  {
    var keys := SlotKeys();
    assert |keys| == 11;
    assert keys[0] == "period1" && keys[1] == "period2" && keys[2] == "period3";
    assert keys[3] == "recess1" && keys[4] == "period4" && keys[5] == "period5";
    assert keys[6] == "period6" && keys[7] == "recess2" && keys[8] == "period7";
    assert keys[9] == "period8" && keys[10] == "period9";
  }

  /** Exactly the two recess slots carry the recess flag, and every display text
      is the start, a spaced dash and the end. */
  lemma SlotRecordsWellFormed()
    ensures forall i :: 0 <= i < |TimePeriods| ==>
              (TimePeriods[i].isRecess <==> TimePeriods[i].key in {"recess1", "recess2"})
    ensures forall i :: 0 <= i < |TimePeriods| ==> Joins(TimePeriods[i])
  {
    SlotKeysInOrder();
    assert forall i :: 0 <= i < |TimePeriods| ==> SlotKeys()[i] == TimePeriods[i].key;
    DisplaysJoinTimes();
  }

  /** A display text made of the start, a spaced dash and the end. */
  predicate Joins(s: Slot) {
    s.display == s.start + " - " + s.end
  }

  lemma DisplaysJoinTimes()
    ensures forall i :: 0 <= i < |TimePeriods| ==> Joins(TimePeriods[i])
  {
    MorningDisplaysJoin();
    AfternoonDisplaysJoin();
  }

  lemma MorningDisplaysJoin()
    ensures Joins(Period1) && Joins(Period2) && Joins(Period3) && Joins(Recess1) && Joins(Period4)
  {
  }

  lemma AfternoonDisplaysJoin()
    ensures Joins(Period5) && Joins(Period6) && Joins(Recess2) && Joins(Period7) && Joins(Period8) && Joins(Period9)
  {
  }

  // ---------------------------------------------------------------------------
  // Clock strings and their order

  /** JavaScript's `<` on two strings: lexicographic order of code units. */
  predicate Less(a: string, b: string) {
    if |a| == 0 then |b| > 0
    else if |b| == 0 then false
    else if a[0] != b[0] then a[0] < b[0]
    else Less(a[1..], b[1..])
  }

  predicate IsDigit(c: char) { '0' <= c <= '9' }

  function DigitValue(c: char): int { c as int - '0' as int }

  function DigitChar(n: nat): char
    requires n < 10
  {
    ('0' as int + n) as char
  }

  /** A zero-padded "HH:MM" string whose minutes field is below 60. */
  predicate IsClockTime(t: string) {
    |t| == 5 && IsDigit(t[0]) && IsDigit(t[1]) && t[2] == ':' && '0' <= t[3] <= '5' && IsDigit(t[4])
  }

  /** Minutes since midnight of a clock string. */
  function Minutes(t: string): int
    requires IsClockTime(t)
  {
    (10 * DigitValue(t[0]) + DigitValue(t[1])) * 60 + 10 * DigitValue(t[3]) + DigitValue(t[4])
  }

  /** `n.toString().padStart(2, '0')` for a number below 100. */
  function Pad2(n: nat): string
    requires n < 100
  {
    if n < 10 then "0" + [DigitChar(n)] else [DigitChar(n / 10), DigitChar(n % 10)]
  }

  /** The "HH:MM" string the helpers build from the clock's hours and minutes. */
  function FormatClock(hours: nat, minutes: nat): (t: string)
    requires hours < 24 && minutes < 60
    ensures IsClockTime(t) && Minutes(t) == hours * 60 + minutes
  {
    Pad2(hours) + ":" + Pad2(minutes)
  }

  lemma LessStep(a: string, b: string)
    requires |a| > 0 && |b| > 0
    ensures Less(a, b) == if a[0] != b[0] then a[0] < b[0] else Less(a[1..], b[1..])
  {
  }

  /** Comparing two clock strings as strings orders them as minutes since midnight. */
  lemma {:induction false} LessIsEarlier(a: string, b: string)
    requires IsClockTime(a) && IsClockTime(b)
    ensures Less(a, b) <==> Minutes(a) < Minutes(b)
  {
    var a1, b1 := a[1..], b[1..];
    var a2, b2 := a1[1..], b1[1..];
    var a3, b3 := a2[1..], b2[1..];
    var a4, b4 := a3[1..], b3[1..];
    LessStep(a, b);
    LessStep(a1, b1);
    LessStep(a2, b2);
    LessStep(a3, b3);
    LessStep(a4, b4);
    assert a4[1..] == [] && b4[1..] == [];
    assert !Less(a4[1..], b4[1..]);
  }

  lemma SlotTimesAreClockTimes()
    ensures forall i :: 0 <= i < |TimePeriods| ==>
              IsClockTime(TimePeriods[i].start) && IsClockTime(TimePeriods[i].end)
  {
    MorningStartMinutes();
    AfternoonStartMinutes();
    EndsMeetStarts();
  }

  /** Every slot ends where the next one starts. */
  lemma EndsMeetStarts()
    ensures forall i :: 0 <= i < |TimePeriods| - 1 ==> TimePeriods[i].end == TimePeriods[i + 1].start
  {
    MorningEndsMeetStarts();
    AfternoonEndsMeetStarts();
  }

  lemma MorningEndsMeetStarts()
    ensures Period1.end == Period2.start && Period2.end == Period3.start && Period3.end == Recess1.start
    ensures Recess1.end == Period4.start && Period4.end == Period5.start
  {
  }

  lemma AfternoonEndsMeetStarts()
    ensures Period5.end == Period6.start && Period6.end == Recess2.start && Recess2.end == Period7.start
    ensures Period7.end == Period8.start && Period8.end == Period9.start
  {
  }

  lemma MorningStartMinutes()
    ensures IsClockTime(Period1.start) && Minutes(Period1.start) == 475
    ensures IsClockTime(Period2.start) && Minutes(Period2.start) == 510
    ensures IsClockTime(Period3.start) && Minutes(Period3.start) == 545
    ensures IsClockTime(Recess1.start) && Minutes(Recess1.start) == 580
    ensures IsClockTime(Period4.start) && Minutes(Period4.start) == 610
  {
  }

  lemma AfternoonStartMinutes()
    ensures IsClockTime(Period5.start) && Minutes(Period5.start) == 645
    ensures IsClockTime(Period6.start) && Minutes(Period6.start) == 680
    ensures IsClockTime(Recess2.start) && Minutes(Recess2.start) == 715
    ensures IsClockTime(Period7.start) && Minutes(Period7.start) == 745
    ensures IsClockTime(Period8.start) && Minutes(Period8.start) == 780
    ensures IsClockTime(Period9.start) && Minutes(Period9.start) == 815
    ensures IsClockTime(Period9.end) && Minutes(Period9.end) == 850
  {
  }

  function StartMinutes(i: nat): int
    requires i < |TimePeriods|
  {
    SlotTimesAreClockTimes();
    Minutes(TimePeriods[i].start)
  }

  function EndMinutes(i: nat): int
    requires i < |TimePeriods|
  {
    SlotTimesAreClockTimes();
    Minutes(TimePeriods[i].end)
  }

  /** The starts of the slots in minutes since midnight, and the end of the last. */
  const SlotStarts: seq<int> := [475, 510, 545, 580, 610, 645, 680, 715, 745, 780, 815]
  const DayEnd: int := 850

  lemma StartMinutesTable()
    ensures forall i :: 0 <= i < |TimePeriods| ==> StartMinutes(i) == SlotStarts[i]
  {
    MorningStartMinutes();
    AfternoonStartMinutes();
  }

  /** Each slot ends at the next one's start, the last at the end of the day. */
  lemma EndMinutesTable()
    ensures forall i :: 0 <= i < |TimePeriods| - 1 ==> EndMinutes(i) == SlotStarts[i + 1]
    ensures EndMinutes(|TimePeriods| - 1) == DayEnd
  {
    SlotTimesAreClockTimes();
    EndsMeetStarts();
    StartMinutesTable();
    forall i | 0 <= i < |TimePeriods| - 1
      ensures EndMinutes(i) == SlotStarts[i + 1]
    {
      assert EndMinutes(i) == StartMinutes(i + 1);
    }
  }

  /** The day runs from 07:55 to 14:10 without gaps: every slot starts before it
      ends and ends where the next one starts. */
  lemma SlotsAreContiguous()
    ensures forall i :: 0 <= i < |TimePeriods| ==> Less(TimePeriods[i].start, TimePeriods[i].end)
    ensures forall i :: 0 <= i < |TimePeriods| - 1 ==> TimePeriods[i].end == TimePeriods[i + 1].start
    ensures StartMinutes(0) == 7 * 60 + 55 && EndMinutes(|TimePeriods| - 1) == 14 * 60 + 10
    ensures StartMinutes(|TimePeriods| - 1) == 13 * 60 + 35
  {
    EndsMeetStarts();
    StartMinutesTable();
    EndMinutesTable();
    StartsBeforeEnds();
  }

  lemma StartsBeforeEnds()
    ensures forall i :: 0 <= i < |TimePeriods| ==> Less(TimePeriods[i].start, TimePeriods[i].end)
  {
    SlotTimesAreClockTimes();
    StartsNonDecreasing();
    forall i | 0 <= i < |TimePeriods|
      ensures Less(TimePeriods[i].start, TimePeriods[i].end)
    {
      LessIsEarlier(TimePeriods[i].start, TimePeriods[i].end);
    }
  }

  // ---------------------------------------------------------------------------
  // getTimeSlotInfo

  /** The slot stored under `key`, or none (`TIME_PERIODS[period] || null`). */
  function GetTimeSlotInfo(key: string): (r: Option<Slot>)
    ensures r.Some? <==> IsSlotKey(key)
    ensures r.Some? ==> r.value.key == key && r.value in TimePeriods
  {
    SlotLookup(key, 0)
  }

  function SlotLookup(key: string, from: nat): (r: Option<Slot>)
    requires from <= |TimePeriods|
    ensures r.Some? <==> exists i :: from <= i < |TimePeriods| && TimePeriods[i].key == key
    ensures r.Some? ==> r.value.key == key && r.value in TimePeriods
    decreases |TimePeriods| - from
  {
    if from == |TimePeriods| then None
    else if TimePeriods[from].key == key then Some(TimePeriods[from])
    else SlotLookup(key, from + 1)
  }

  /** What `TIME_PERIODS[period] || null` evaluates to in JavaScript, where a
      plain object also answers with the members it inherits from Object.prototype. */
  datatype JsLookup = FoundSlot(slot: Slot) | InheritedMember(name: string) | Null

  const ObjectPrototypeMembers: set<string> := {
    "constructor", "hasOwnProperty", "isPrototypeOf", "propertyIsEnumerable",
    "toLocaleString", "toString", "valueOf", "__proto__", "__defineGetter__",
    "__defineSetter__", "__lookupGetter__", "__lookupSetter__"
  }

  /** getTimeSlotInfo as written: an inherited member name yields that member,
      which is truthy, so `|| null` does not replace it. */
  function GetTimeSlotInfoAsWritten(key: string): (r: JsLookup)
    ensures r.FoundSlot? <==> IsSlotKey(key)
    ensures r.Null? <==> !IsSlotKey(key) && key !in ObjectPrototypeMembers
    ensures r.FoundSlot? ==> r.slot.key == key && r.slot in TimePeriods
    ensures r.InheritedMember? ==> r.name == key && key in ObjectPrototypeMembers
  {
    match SlotLookup(key, 0)
    case Some(s) => FoundSlot(s)
    case None => if key in ObjectPrototypeMembers then InheritedMember(key) else Null
  }

  /** "toString" is not a slot key, yet the lookup as written does not return null. */
  lemma InheritedKeyIsNotNull()
    ensures !IsSlotKey("toString")
    ensures GetTimeSlotInfoAsWritten("toString") == InheritedMember("toString")
    ensures GetTimeSlotInfo("toString") == None
  {
    var k := "toString";
    forall i | 0 <= i < |TimePeriods|
      ensures TimePeriods[i].key != k
    {
      assert |TimePeriods[i].key| == 7 != |k|;
    }
  }

  // ---------------------------------------------------------------------------
  // getCurrentPeriod and getNextPeriod

  /** The window test `currentTime >= time.start && currentTime <= time.end`. */
  predicate Covers(s: Slot, t: string) {
    !Less(t, s.start) && !Less(s.end, t)
  }

  /** The first slot, from index `from` on, whose window covers `t`. */
  function FindCurrent(t: string, from: nat): (r: Option<nat>)
    requires from <= |TimePeriods|
    ensures r.Some? ==> from <= r.value < |TimePeriods| && Covers(TimePeriods[r.value], t)
    ensures r.Some? ==> forall j :: from <= j < r.value ==> !Covers(TimePeriods[j], t)
    ensures r.None? ==> forall j :: from <= j < |TimePeriods| ==> !Covers(TimePeriods[j], t)
    decreases |TimePeriods| - from
  {
    if from == |TimePeriods| then None
    else if Covers(TimePeriods[from], t) then Some(from)
    else FindCurrent(t, from + 1)
  }

  /** The first slot, from index `from` on, that starts after `t`. */
  function FindNext(t: string, from: nat): (r: Option<nat>)
    requires from <= |TimePeriods|
    ensures r.Some? ==> from <= r.value < |TimePeriods| && Less(t, TimePeriods[r.value].start)
    ensures r.Some? ==> forall j :: from <= j < r.value ==> !Less(t, TimePeriods[j].start)
    ensures r.None? ==> forall j :: from <= j < |TimePeriods| ==> !Less(t, TimePeriods[j].start)
    decreases |TimePeriods| - from
  {
    if from == |TimePeriods| then None
    else if Less(t, TimePeriods[from].start) then Some(from)
    else FindNext(t, from + 1)
  }

  /** getCurrentPeriod at the clock time hours:minutes. */
  function GetCurrentPeriod(hours: nat, minutes: nat): (r: Option<Slot>)
    requires hours < 24 && minutes < 60
  {
    match FindCurrent(FormatClock(hours, minutes), 0)
    case Some(i) => Some(TimePeriods[i])
    case None => None
  }

  /** getNextPeriod at the clock time hours:minutes. */
  function GetNextPeriod(hours: nat, minutes: nat): (r: Option<Slot>)
    requires hours < 24 && minutes < 60
  {
    match FindNext(FormatClock(hours, minutes), 0)
    case Some(i) => Some(TimePeriods[i])
    case None => None
  }

  /** The current period is the first slot, in table order, whose start and end
      (both inclusive) enclose the time in minutes since midnight. */
  lemma CurrentPeriodByMinutes(hours: nat, minutes: nat)
    requires hours < 24 && minutes < 60
    ensures var x := hours * 60 + minutes;
      match GetCurrentPeriod(hours, minutes)
      case None => forall j :: 0 <= j < |TimePeriods| ==> !(StartMinutes(j) <= x <= EndMinutes(j))
      case Some(s) => exists i :: 0 <= i < |TimePeriods| && s == TimePeriods[i]
                        && StartMinutes(i) <= x <= EndMinutes(i)
                        && forall j :: 0 <= j < i ==> !(StartMinutes(j) <= x <= EndMinutes(j))
  {
    var t := FormatClock(hours, minutes);
    SlotTimesAreClockTimes();
    var x := Minutes(t);
    forall j | 0 <= j < |TimePeriods|
      ensures Covers(TimePeriods[j], t) <==> StartMinutes(j) <= x <= EndMinutes(j)
    {
      CoveredByMinutes(TimePeriods[j], t);
    }
    match FindCurrent(t, 0)
    case Some(i) =>
      assert GetCurrentPeriod(hours, minutes) == Some(TimePeriods[i]);
      assert StartMinutes(i) <= x <= EndMinutes(i);
    case None =>
  }

  /** The next period is the first slot, in table order, that starts strictly
      later than the time in minutes since midnight. */
  lemma NextPeriodByMinutes(hours: nat, minutes: nat)
    requires hours < 24 && minutes < 60
    ensures var x := hours * 60 + minutes;
      match GetNextPeriod(hours, minutes)
      case None => forall j :: 0 <= j < |TimePeriods| ==> StartMinutes(j) <= x
      case Some(s) => exists i :: 0 <= i < |TimePeriods| && s == TimePeriods[i]
                        && x < StartMinutes(i)
                        && forall j :: 0 <= j < i ==> StartMinutes(j) <= x
  {
    var t := FormatClock(hours, minutes);
    SlotTimesAreClockTimes();
    forall j | 0 <= j < |TimePeriods|
      ensures Less(t, TimePeriods[j].start) <==> Minutes(t) < StartMinutes(j)
    {
      LessIsEarlier(t, TimePeriods[j].start);
    }
    match FindNext(t, 0)
    case Some(i) => assert GetNextPeriod(hours, minutes) == Some(TimePeriods[i]);
    case None =>
  }

  /** 08:30 is both the end of period1 and the start of period2; the first
      match wins, so it belongs to period1. */
  lemma BoundaryTimeBelongsToEarlierSlot()
    ensures GetCurrentPeriod(8, 30) == Some(TimePeriods[0])
    ensures GetCurrentPeriod(9, 45) == Some(TimePeriods[3])
    ensures GetCurrentPeriod(7, 54) == None && GetCurrentPeriod(14, 11) == None
  {
    CurrentAtFirstBoundary();
    CurrentInFirstRecess();
    NoCurrentBeforeDay();
    NoCurrentAfterDay();
  }

  lemma CurrentAtFirstBoundary()
    ensures GetCurrentPeriod(8, 30) == Some(TimePeriods[0])
  {
    var t := FormatClock(8, 30);
    MorningStartMinutes();
    MorningEndsMeetStarts();
    CoveredByMinutes(Period1, t);
    assert FindCurrent(t, 0) == Some(0);
  }

  lemma CurrentInFirstRecess()
    ensures GetCurrentPeriod(9, 45) == Some(TimePeriods[3])
  {
    CurrentPeriodByMinutes(9, 45);
    StartMinutesTable();
    EndMinutesTable();
    var x := 9 * 60 + 45;
    assert StartMinutes(3) <= x <= EndMinutes(3);
  }

  /** The window test on clock strings is the window test on minutes. */
  lemma CoveredByMinutes(s: Slot, t: string)
    requires IsClockTime(s.start) && IsClockTime(s.end) && IsClockTime(t)
    ensures Covers(s, t) <==> Minutes(s.start) <= Minutes(t) <= Minutes(s.end)
  {
    LessIsEarlier(t, s.start);
    LessIsEarlier(s.end, t);
  }

  lemma NoCurrentBeforeDay()
    ensures GetCurrentPeriod(7, 54) == None
  {
    CurrentPeriodByMinutes(7, 54);
    StartsNonDecreasing();
    MorningStartMinutes();
  }

  lemma NoCurrentAfterDay()
    ensures GetCurrentPeriod(14, 11) == None
  {
    CurrentPeriodByMinutes(14, 11);
    StartsNonDecreasing();
    EndMinutesTable();
  }

  lemma StartsNonDecreasing()
    ensures forall i, j :: 0 <= i <= j < |TimePeriods| ==> StartMinutes(i) <= StartMinutes(j)
    ensures forall i :: 0 <= i < |TimePeriods| ==> StartMinutes(0) <= StartMinutes(i) < EndMinutes(i) <= EndMinutes(|TimePeriods| - 1)
  {
    StartMinutesTable();
    EndMinutesTable();
    forall i, j | 0 <= i <= j < |TimePeriods|
      ensures SlotStarts[i] <= SlotStarts[j]
    {
      StartsIncrease(i, j);
    }
  }

  lemma StartsIncrease(i: nat, j: nat)
    requires i <= j < |SlotStarts|
    ensures SlotStarts[i] <= SlotStarts[j]
    decreases j - i
  {
    if i < j {
      StartsIncrease(i, j - 1);
      assert SlotStarts[j - 1] < SlotStarts[j];
    }
  }

  /** Once the last period has started (13:35), there is no next period; before
      that there always is one. */
  lemma NoNextPeriodFromLastStart(hours: nat, minutes: nat)
    requires hours < 24 && minutes < 60
    ensures GetNextPeriod(hours, minutes).None? <==> hours * 60 + minutes >= 13 * 60 + 35
  {
    NextPeriodByMinutes(hours, minutes);
    StartsNonDecreasing();
    SlotsAreContiguous();
  }

  // ---------------------------------------------------------------------------
  // generateScheduleTable

  /** The period-by-day table: `data[period][day]` holds a schedule or null. */
  datatype Table<T> = Table(periods: seq<string>, days: seq<string>, data: map<string, map<string, Option<T>>>)

  /** The schedule that the fill loop leaves in cell (period, day): the last one
      in `schedules` placed there, or none. */
  function LastPlaced<T>(schedules: seq<T>, periodOf: T -> string, dayOf: T -> string,
                         period: string, day: string): Option<T>
  {
    if schedules == [] then None
    else
      var last := schedules[|schedules| - 1];
      if periodOf(last) == period && dayOf(last) == day then Some(last)
      else LastPlaced(schedules[..|schedules| - 1], periodOf, dayOf, period, day)
  }

  /** A cell stays null exactly when no schedule is placed there; otherwise it
      holds the last schedule placed there, every later one going elsewhere. */
  lemma {:induction false} LastPlacedIsLastMatch<T>(schedules: seq<T>, periodOf: T -> string,
                                                    dayOf: T -> string, period: string, day: string)
    ensures var r := LastPlaced(schedules, periodOf, dayOf, period, day);
      && (r.None? <==> !Placed(schedules, periodOf, dayOf, period, day))
      && (r.Some? ==> exists k :: 0 <= k < |schedules| && schedules[k] == r.value
                        && periodOf(schedules[k]) == period && dayOf(schedules[k]) == day
                        && forall m :: k < m < |schedules| ==>
                             !(periodOf(schedules[m]) == period && dayOf(schedules[m]) == day))
    decreases |schedules|
  {
    if schedules != [] {
      var n := |schedules| - 1;
      var init := schedules[..n];
      LastPlacedIsLastMatch(init, periodOf, dayOf, period, day);
      if !(periodOf(schedules[n]) == period && dayOf(schedules[n]) == day) {
        if Placed(schedules, periodOf, dayOf, period, day) {
          var k :| 0 <= k < |schedules| && periodOf(schedules[k]) == period && dayOf(schedules[k]) == day;
          assert init[k] == schedules[k];
        }
        if Placed(init, periodOf, dayOf, period, day) {
          var k :| 0 <= k < n && periodOf(init[k]) == period && dayOf(init[k]) == day;
          assert init[k] == schedules[k];
        }
        var r := LastPlaced(init, periodOf, dayOf, period, day);
        if r.Some? {
          var k :| 0 <= k < n && init[k] == r.value
                     && periodOf(init[k]) == period && dayOf(init[k]) == day
                     && forall m :: k < m < n ==> !(periodOf(init[m]) == period && dayOf(init[m]) == day);
          assert schedules[k] == r.value;
          assert forall m :: k < m < n ==> init[m] == schedules[m];
        }
      }
    }
  }

  /** A row of `table.data` before filling: a null cell for each weekday. */
  method BlankRow<T>() returns (row: map<string, Option<T>>)
    ensures forall d :: d in row <==> d in Days
    ensures forall d :: d in row ==> row[d] == None
  {
    row := map[];
    for j := 0 to |Days|
      invariant forall d :: d in row <==> d in Days[..j]
      invariant forall d :: d in row ==> row[d] == None
    {
      row := row[Days[j] := None];
    }
    assert Days[..|Days|] == Days;
  }

  /** Whether some schedule is placed in cell (period, day). */
  predicate Placed<T>(schedules: seq<T>, periodOf: T -> string, dayOf: T -> string,
                      period: string, day: string)
  {
    exists k :: 0 <= k < |schedules| && periodOf(schedules[k]) == period && dayOf(schedules[k]) == day
  }

  /** Extending the processed prefix by one schedule changes only its own cell. */
  lemma PlacedStep<T>(schedules: seq<T>, periodOf: T -> string, dayOf: T -> string,
                      k: nat, period: string, day: string)
    requires k < |schedules|
    ensures Placed(schedules[..k + 1], periodOf, dayOf, period, day) <==>
              Placed(schedules[..k], periodOf, dayOf, period, day)
              || (periodOf(schedules[k]) == period && dayOf(schedules[k]) == day)
    ensures LastPlaced(schedules[..k + 1], periodOf, dayOf, period, day) ==
              if periodOf(schedules[k]) == period && dayOf(schedules[k]) == day then Some(schedules[k])
              else LastPlaced(schedules[..k], periodOf, dayOf, period, day)
  {
    assert schedules[..k + 1][..k] == schedules[..k];
    assert schedules[..k + 1][k] == schedules[k];
    if Placed(schedules[..k], periodOf, dayOf, period, day) {
      var m :| 0 <= m < k && periodOf(schedules[..k][m]) == period && dayOf(schedules[..k][m]) == day;
      assert schedules[..k + 1][m] == schedules[..k][m];
    }
  }

  /** The table data before filling: a blank row under each slot key. */
  method BlankData<T>() returns (data: map<string, map<string, Option<T>>>)
    ensures forall p :: p in data <==> IsSlotKey(p)
    ensures forall p, d :: p in data ==> (d in data[p] <==> d in Days)
    ensures forall p, d :: p in data && d in data[p] ==> data[p][d] == None
  {
    var keys := SlotKeys();
    data := map[];
    for i := 0 to |keys|
      invariant forall p :: p in data <==> p in keys[..i]
      invariant forall p, d :: p in data ==> (d in data[p] <==> d in Days)
      invariant forall p, d :: p in data && d in data[p] ==> data[p][d] == None
    {
      var row := BlankRow();
      data := data[keys[i] := row];
    }
    assert keys[..|keys|] == keys;
  }

  /** The fill loop of generateScheduleTable over blank data. */
  method FillData<T>(blank: map<string, map<string, Option<T>>>, schedules: seq<T>,
                     periodOf: T -> string, dayOf: T -> string)
    returns (data: map<string, map<string, Option<T>>>)
    requires forall p, d :: p in blank ==> (d in blank[p] <==> d in Days)
    requires forall p, d :: p in blank && d in blank[p] ==> blank[p][d] == None
    ensures data.Keys == blank.Keys
    ensures forall p, d :: p in data ==>
              (d in data[p] <==> d in Days || Placed(schedules, periodOf, dayOf, p, d))
    ensures forall p, d :: p in data && d in data[p] ==>
              data[p][d] == LastPlaced(schedules, periodOf, dayOf, p, d)
  {
    data := blank;
    for k := 0 to |schedules|
      invariant data.Keys == blank.Keys
      invariant forall p, d :: p in data ==>
                  (d in data[p] <==> d in Days || Placed(schedules[..k], periodOf, dayOf, p, d))
      invariant forall p, d :: p in data && d in data[p] ==>
                  data[p][d] == LastPlaced(schedules[..k], periodOf, dayOf, p, d)
    {
      var s := schedules[k];
      ghost var before := data;
      if periodOf(s) in data {
        data := data[periodOf(s) := data[periodOf(s)][dayOf(s) := Some(s)]];
      }
      forall p, d | p in data
        ensures d in data[p] <==> d in Days || Placed(schedules[..k + 1], periodOf, dayOf, p, d)
      {
        PlacedStep(schedules, periodOf, dayOf, k, p, d);
      }
      forall p, d | p in data && d in data[p]
        ensures data[p][d] == LastPlaced(schedules[..k + 1], periodOf, dayOf, p, d)
      {
        PlacedStep(schedules, periodOf, dayOf, k, p, d);
        if p == periodOf(s) && d == dayOf(s) {
          assert data[p][d] == Some(s);
        } else {
          assert p in before && d in before[p];
          assert data[p][d] == before[p][d];
        }
      }
    }
    forall p, d | p in data
      ensures d in data[p] <==> d in Days || Placed(schedules, periodOf, dayOf, p, d)
      ensures d in data[p] ==> data[p][d] == LastPlaced(schedules, periodOf, dayOf, p, d)
    {
      assert schedules[..|schedules|] == schedules;
    }
  }

  /** generateScheduleTable: one row per slot key holding a null cell per
      weekday, then each schedule whose period is a slot key written into cell
      (period, day), a later schedule overwriting an earlier one. A day outside
      the weekday list becomes a new cell of that row. Periods and days are
      ordinary keys here: names of built-in object members get no special
      treatment. */
  method GenerateScheduleTable<T>(schedules: seq<T>, periodOf: T -> string, dayOf: T -> string)
    returns (table: Table<T>)
    ensures table.periods == SlotKeys() && table.days == Days
    ensures forall p :: p in table.data <==> IsSlotKey(p)
    ensures forall p, d :: p in table.data ==>
              (d in table.data[p] <==> d in Days || Placed(schedules, periodOf, dayOf, p, d))
    ensures forall p, d :: p in table.data && d in table.data[p] ==>
              table.data[p][d] == LastPlaced(schedules, periodOf, dayOf, p, d)
  {
    var blank := BlankData();
    var data := FillData(blank, schedules, periodOf, dayOf);
    table := Table(SlotKeys(), Days, data);
  }
}
