/** Dates of calendar events and the sorted list of events
    (vadrouille/cal_date.c, vadrouille/calendar.c, lib/timetools.c). */
module Calendar {

  predicate IsLeapYear(y: nat) { y % 4 == 0 && (y % 100 != 0 || y % 400 == 0) }

  /** Days of a month, 0 to 11. */
  function MonthDays(year: nat, month: nat): (d: nat)
    requires month < 12
    ensures 28 <= d <= 31
  {
    [31, 28, 31, 30, 31, 30, 31, 31, 30, 31, 30, 31][month] + if month == 1 && IsLeapYear(year) then 1 else 0
  }

  /** The months of 30 and of 31 days, and when February has 29. */
  lemma DaysOfMonths(year: nat, month: nat)
    requires month < 12
    ensures MonthDays(year, month) == 30 <==> month in {3, 5, 8, 10}
    ensures MonthDays(year, month) == 31 <==> month in {0, 2, 4, 6, 7, 9, 11}
    ensures MonthDays(year, 1) == 29 <==> year % 400 == 0 || (year % 4 == 0 && year % 100 != 0)
  {
  }

  /** Year 0 is a date that is not set; an hour above 23 is a date without time. */
  datatype Date = Date(year: nat, month: nat, day: nat, hour: nat, min: nat)

  predicate IsSet(d: Date) { d.year != 0 }

  predicate HasTime(d: Date) { IsSet(d) && d.hour <= 23 }

  predicate Valid(d: Date) {
    && IsSet(d) && d.month < 12 && 1 <= d.day <= MonthDays(d.year, d.month)
    && (HasTime(d) ==> d.min < 60)
  }

  /** Days in the first `k` months of the calendar, from year 0 on. */
  function DaysBefore(k: nat): nat { if k == 0 then 0 else DaysBefore(k - 1) + MonthDays((k - 1) / 12, (k - 1) % 12) }

  /** The day, counted from the start of year 0, months past the twelfth running into the next years. */
  function DayNumber(d: Date): nat { DaysBefore(12 * d.year + d.month) + d.day }

  /** The minute, a date without time being its midnight. */
  function Minute(d: Date): nat { DayNumber(d) * 1440 + if HasTime(d) then d.hour * 60 + d.min else 0 }

  /** `cal_date_ctor`: hours past 23 mean no time, all other fields are brought into range. */
  method Make(y: nat, M: nat, d: nat, h: nat, m: nat) returns (cd: Date)
    ensures y == 0 ==> cd == Date(y, M, d, h, m)
    ensures y != 0 && d >= 1 ==> Valid(cd) && Minute(cd) == Minute(Date(y, M, d, h, m)) && (HasTime(cd) <==> h <= 23)
    ensures y != 0 && h > 23 ==> cd.hour == h && cd.min == m
  {
    hide Minute, DayNumber;
    cd := Date(y, M, d, h, m);
    if HasTime(cd) {
      TimeBounded(cd);
      cd := cd.(hour := cd.hour + cd.min / 60, min := cd.min % 60);
      cd := cd.(day := cd.day + cd.hour / 24, hour := cd.hour % 24);
    }
    if IsSet(cd) {
      MonthBounded(cd);
      ghost var hour, min := cd.hour, cd.min;
      cd := cd.(year := cd.year + cd.month / 12, month := cd.month % 12);
      while cd.day > MonthDays(cd.year, cd.month)
        invariant cd.year != 0 && cd.month < 12 && (d >= 1 ==> cd.day >= 1)
        invariant cd.hour == hour && cd.min == min && Minute(cd) == Minute(Date(y, M, d, h, m))
        decreases cd.day
      {
        NextMonth(cd);
        cd := cd.(day := cd.day - MonthDays(cd.year, cd.month));
        cd := cd.(month := cd.month + 1);
        if cd.month >= 12 { cd := cd.(month := cd.month - 12, year := cd.year + 1); }
      }
    }
  }

  lemma TimeBounded(d: Date)
    requires HasTime(d)
    ensures var h := d.hour + d.min / 60; Minute(d.(hour := h % 24, min := d.min % 60, day := d.day + h / 24)) == Minute(d)
  {
    var h := d.hour + d.min / 60;
    assert d.min == 60 * (d.min / 60) + d.min % 60 && h == 24 * (h / 24) + h % 24;
    hide DaysBefore;
  }

  lemma MonthBounded(d: Date)
    requires IsSet(d)
    ensures Minute(d.(year := d.year + d.month / 12, month := d.month % 12)) == Minute(d)
  {
    assert 12 * (d.year + d.month / 12) + d.month % 12 == 12 * d.year + d.month;
    hide DaysBefore;
  }

  /** A day past the end of a month is a day of the next one. */
  lemma NextMonth(d: Date)
    requires IsSet(d) && d.month < 12 && d.day > MonthDays(d.year, d.month)
    ensures var e := d.(day := d.day - MonthDays(d.year, d.month));
      Minute(if d.month == 11 then e.(month := 0, year := d.year + 1) else e.(month := d.month + 1)) == Minute(d)
  {
    var k := 12 * d.year + d.month;
    assert k / 12 == d.year && k % 12 == d.month;
    assert DaysBefore(k + 1) == DaysBefore(k) + MonthDays(d.year, d.month);
    hide DaysBefore, MonthDays;
    assert 12 * (d.year + 1) == k + 1 || d.month < 11;
  }

  function Sign(a: nat, b: nat): int { if a < b then -1 else if a > b then 1 else 0 }

  function Compare(a: Date, b: Date): int {
    if a.year != b.year then Sign(a.year, b.year)
    else if a.month != b.month then Sign(a.month, b.month)
    else if a.day != b.day then Sign(a.day, b.day)
    else if !HasTime(a) then (if HasTime(b) && (b.hour > 0 || b.min > 0) then -1 else 0)
    else if !HasTime(b) && (a.hour > 0 || a.min > 0) then 1
    else if a.hour != b.hour then Sign(a.hour, b.hour)
    else Sign(a.min, b.min)
  }

  lemma {:induction false} DaysGrow(j: nat, k: nat)
    requires j <= k
    ensures DaysBefore(j) <= DaysBefore(k)
    decreases k
  {
    if j < k { DaysGrow(j, k - 1); }
  }

  /** Earlier months have earlier days. */
  lemma DaysOrdered(a: Date, b: Date)
    requires Valid(a) && Valid(b) && 12 * a.year + a.month < 12 * b.year + b.month
    ensures DayNumber(a) < DayNumber(b)
  {
    var k := 12 * a.year + a.month;
    DaysGrow(k + 1, 12 * b.year + b.month);
    assert k / 12 == a.year && k % 12 == a.month;
  }

  /** The comparison is positive exactly when strictly later.  It is negative when
      strictly earlier, and also for a midnight against the same day without time. */
  lemma CompareIsOrder(a: Date, b: Date)
    requires Valid(a) && Valid(b)
    ensures Compare(a, b) > 0 <==> Minute(a) > Minute(b)
    ensures Compare(a, b) < 0 <==> Minute(a) < Minute(b) || (Minute(a) == Minute(b) && HasTime(a) && !HasTime(b))
  {
    if 12 * a.year + a.month < 12 * b.year + b.month { DaysOrdered(a, b); }
    else if 12 * a.year + a.month > 12 * b.year + b.month { DaysOrdered(b, a); }
    hide DaysBefore, MonthDays;
  }

  /** So it is not antisymmetric. */
  lemma MidnightAgainstDay()
    ensures var a, b := Date(2009, 0, 1, 0, 0), Date(2009, 0, 1, 99, 99); Compare(a, b) == -1 && Compare(b, a) == 0
  {
  }

  // ----- the list of events -----

  datatype Event = Event(start: Date, stop: Date, dir: int)

  predicate Sorted(es: seq<Event>) { forall i, j :: 0 <= i < j < |es| ==> Minute(es[i].start) <= Minute(es[j].start) }

  predicate AllValid(es: seq<Event>) { forall i :: 0 <= i < |es| ==> Valid(es[i].start) }

  /** Its last day, or only one. */
  function End(e: Event): Date { if IsSet(e.stop) then e.stop else e.start }

  /** The event starts no later than `stop` and does not end before `start`. */
  predicate Between(e: Event, start: Date, stop: Date, dirs: set<int>) {
    Minute(e.start) <= Minute(stop) && e.dir in dirs && Compare(End(e), start) >= 0
  }

  function Filtered(es: seq<Event>, start: Date, stop: Date, dirs: set<int>): seq<Event> {
    if es == [] then []
    else (if Between(es[0], start, stop, dirs) then [es[0]] else []) + Filtered(es[1..], start, stop, dirs)
  }

  /** For a range whose first date has a time, that is to overlap it, by the minute. */
  lemma BetweenIsOverlap(e: Event, start: Date, stop: Date, dirs: set<int>)
    requires Valid(start) && HasTime(start) && Valid(e.start) && (e.stop.year != 0 ==> Valid(e.stop))
    ensures e.stop.year != 0 ==> (Between(e, start, stop, dirs) <==> Minute(e.start) <= Minute(stop) && Minute(e.stop) >= Minute(start) && e.dir in dirs)
    ensures e.stop.year == 0 ==> (Between(e, start, stop, dirs) <==> Minute(start) <= Minute(e.start) <= Minute(stop) && e.dir in dirs)
  {
    CompareIsOrder(End(e), start);
    hide Minute, Compare;
  }

  predicate InsertedAt(es: seq<Event>, e: Event, k: int, r: seq<Event>) {
    && 0 <= k <= |es| && r == es[..k] + [e] + es[k..]
    && (forall i :: 0 <= i < k ==> Minute(es[i].start) <= Minute(e.start))
    && (forall i :: k <= i < |es| ==> Minute(es[i].start) > Minute(e.start))
  }

  class Events {
    var events: seq<Event>

    ghost predicate Ordered()
      reads this
    { Sorted(events) && AllValid(events) }

    /** After the events that do not start later, and before the others. */
    method Insert(e: Event)
      requires Ordered() && Valid(e.start)
      modifies this
      ensures Ordered() && exists k :: InsertedAt(old(events), e, k, events)
    {
      hide Minute, Compare, Valid;
      var k := 0;
      while k < |events| && Compare(events[k].start, e.start) <= 0
        invariant 0 <= k <= |events| && events == old(events)
        invariant forall i :: 0 <= i < k ==> Minute(events[i].start) <= Minute(e.start)
      {
        CompareIsOrder(events[k].start, e.start);
        k := k + 1;
      }
      if k < |events| { CompareIsOrder(events[k].start, e.start); }
      events := events[..k] + [e] + events[k..];
      assert InsertedAt(old(events), e, k, events);
    }

    /** The early break misses nothing. */
    method ForEachBetween(start: Date, stop: Date, dirs: set<int>) returns (seen: seq<Event>)
      requires Ordered() && Valid(stop)
      ensures seen == Filtered(events, start, stop, dirs)
    {
      hide Minute, Compare, Valid, IsSet, Filtered;
      seen := [];
      assert events[0..] == events;
      for i := 0 to |events|
        invariant Filtered(events, start, stop, dirs) == seen + Filtered(events[i..], start, stop, dirs)
      {
        var e := events[i];
        FilteredStep(events, i, start, stop, dirs);
        CompareIsOrder(e.start, stop);
        if Compare(e.start, stop) > 0 {
          NoneLater(events[i..], start, stop, dirs);
          return;
        }
        if e.dir in dirs && Compare(End(e), start) >= 0 { seen := seen + [e]; }
      }
      assert Filtered([], start, stop, dirs) == [] by { NoneLater([], start, stop, dirs); }
      assert events[|events|..] == [];
    }
  }

  lemma FilteredStep(es: seq<Event>, i: nat, start: Date, stop: Date, dirs: set<int>)
    requires i < |es|
    ensures Filtered(es[i..], start, stop, dirs) == (if Between(es[i], start, stop, dirs) then [es[i]] else []) + Filtered(es[i + 1..], start, stop, dirs)
    ensures Filtered(es[|es|..], start, stop, dirs) == [] && es[0..] == es
  {
    hide Minute, Compare, IsSet;
    assert es[i..][1..] == es[i + 1..];
  }

  lemma {:induction false} NoneLater(es: seq<Event>, start: Date, stop: Date, dirs: set<int>)
    requires forall i :: 0 <= i < |es| ==> Minute(es[i].start) > Minute(stop)
    ensures Filtered(es, start, stop, dirs) == []
  {
    hide Minute;
    if es != [] { NoneLater(es[1..], start, stop, dirs); }
  }
}
