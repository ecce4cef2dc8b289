/** The "active slot" test shared by the tutor details page and both match
    screens: a day is listed only when it has a start and an end time. */
module Schedule {

  import opened Records

  /** `slot.start_time && slot.end_time`: both times are non-empty. */
  predicate IsActive(s: Slot) {
    s.startTime != "" && s.endTime != ""
  }

  /** One listed day with its window. */
  datatype DayEntry = DayEntry(day: Day, slot: Slot)

  /** Each day of `days` comes strictly before the later ones in weekday order. */
  predicate Ordered(days: seq<Day>) {
    forall i, j :: 0 <= i < j < |days| ==> DayIndex(days[i]) < DayIndex(days[j])
  }

  /** The entries listed are exactly the active days of `a` among `days`, in weekday order. */
  ghost predicate ListsActive(a: Availability, days: seq<Day>, r: seq<DayEntry>) {
    && (forall e :: e in r ==> e.day in days && e.day in a && a[e.day] == e.slot && IsActive(e.slot))
    && (forall d :: d in days && d in a && IsActive(a[d]) ==> DayEntry(d, a[d]) in r)
    && (forall i, j :: 0 <= i < j < |r| ==> DayIndex(r[i].day) < DayIndex(r[j].day))
  }

  /** The entries of `a` for the days in `days` whose slot is active, in the order of `days`. */
  function ActiveAmong(a: Availability, days: seq<Day>): (r: seq<DayEntry>)
    requires Ordered(days)
    ensures forall e :: e in r ==> e.day in days && e.day in a && a[e.day] == e.slot && IsActive(e.slot)
    ensures forall d :: d in days && d in a && IsActive(a[d]) ==> DayEntry(d, a[d]) in r
    ensures forall i, j :: 0 <= i < j < |r| ==> DayIndex(r[i].day) < DayIndex(r[j].day)
    decreases |days|
  {
    if |days| == 0 then []
    else
      assert Ordered(days[1..]);
      var rest := ActiveAmong(a, days[1..]);
      ActiveAmongStep(a, days, rest);
      if days[0] in a && IsActive(a[days[0]]) then [DayEntry(days[0], a[days[0]])] + rest else rest
  }

  /** One step of `ActiveAmong`: the first day is listed in front of the rest's
      entries when it is active, and skipped otherwise. */
  lemma ActiveAmongStep(a: Availability, days: seq<Day>, rest: seq<DayEntry>)
    requires |days| > 0 && Ordered(days)
    requires ListsActive(a, days[1..], rest)
    ensures days[0] in a && IsActive(a[days[0]]) ==> ListsActive(a, days, [DayEntry(days[0], a[days[0]])] + rest)
    ensures !(days[0] in a && IsActive(a[days[0]])) ==> ListsActive(a, days, rest)
  {
    assert days == [days[0]] + days[1..];
    forall e | e in rest
      ensures DayIndex(days[0]) < DayIndex(e.day)
    {
      var k :| 0 <= k < |days| - 1 && days[1..][k] == e.day;
      assert days[k + 1] == e.day;
    }
  }

  /** `Object.entries(availability).filter(([, slot]) => slot.start_time && slot.end_time)`,
      with the entries in weekday order: exactly the active days, each once, Monday first. */
  function ActiveDays(a: Availability): (r: seq<DayEntry>)
    ensures forall e :: e in r ==> e.day in a && a[e.day] == e.slot && IsActive(e.slot)
    ensures forall d :: d in a && IsActive(a[d]) ==> DayEntry(d, a[d]) in r
    ensures forall i, j :: 0 <= i < j < |r| ==> DayIndex(r[i].day) < DayIndex(r[j].day)
  {
    assert Ordered(AllDays) by {
      forall i, j | 0 <= i < j < |AllDays| ensures DayIndex(AllDays[i]) < DayIndex(AllDays[j]) {
        assert DayIndex(AllDays[i]) == i && DayIndex(AllDays[j]) == j;
      }
    }
    assert forall d: Day :: d in AllDays by {
      forall d: Day ensures d in AllDays {
        assert AllDays[DayIndex(d)] == d;
      }
    }
    ActiveAmong(a, AllDays)
  }

  /** A day with only one of its two times set is never listed. */
  lemma HalfSetDayHidden(a: Availability, d: Day)
    requires d in a && (a[d].startTime == "" || a[d].endTime == "")
    ensures forall e :: e in ActiveDays(a) ==> e.day != d
  {
  }

  /** A week with no times at all lists nothing. */
  lemma EmptyWeekListsNothing(a: Availability)
    requires forall d :: d in a ==> a[d] == EmptySlot
    ensures ActiveDays(a) == []
  {
  }
}
