/** The availability classifier: a contact's local day, weekday and hour plus
    the holiday list become one of four statuses and a call recommendation.
    The first matching rule wins: public holiday, then weekend, then office
    hours, then off hours. */
module Availability {
  import opened Calendar
  import opened NagerDate

  datatype Status = InOffice | PublicHoliday | Weekend | OffHours
  {
    /** The status as the response spells it. */
    function Label(): string
    {
      match this
      case InOffice => "in office"
      case PublicHoliday => "public holiday"
      case Weekend => "weekend"
      case OffHours => "off hours"
    }
  }

  /** Each status has its own label, so the reply's label names the status. */
  lemma LabelsDistinct(a: Status, b: Status)
    ensures a.Label() == b.Label() <==> a == b
  {
    if a != b {
      assert a.Label()[0] != b.Label()[0] || |a.Label()| != |b.Label()|;
    }
  }

  datatype Verdict = Verdict(status: Status, recommendation: string)

  const FreeToCall: string := "free to call"
  const CallToday: string := "Call today at 9AM"
  const CallTomorrow: string := "Call tomorrow at 9AM"
  const CallNextWeekday: string := "Call next weekday at 9AM"

  /** The recommendation that names a weekday. */
  function CallOn(w: Weekday): string
  {
    "Call " + DayName(w) + " at 9AM"
  }

  /** Where the next-slot search stops: later today, `k` days ahead, or nowhere
      within the week. */
  datatype Slot = Today | DaysAhead(k: nat) | NoSlot

  /** The day `k` days after `m` is Monday to Friday and no holiday. */
  predicate Callable(m: LocalMoment, hs: seq<Holiday>, k: nat)
  {
    IsWorkday(WeekdayAfter(m.weekday, k)) && !HasHolidayOn(hs, m.day + k)
  }

  /** `k` is the first day ahead, from tomorrow on, that can be called. */
  predicate FirstCallable(m: LocalMoment, hs: seq<Holiday>, k: nat)
  {
    Callable(m, hs, k) && forall j :: 1 <= j < k ==> !Callable(m, hs, j)
  }

  /** Today is Monday to Friday, before 9 o'clock, and no holiday. */
  predicate BeforeOpeningToday(m: LocalMoment, hs: seq<Holiday>)
  {
    IsWorkday(m.weekday) && m.hour < 9 && !HasHolidayOn(hs, m.day)
  }

  /** The forward scan of days `k` .. 7 ahead. */
  function ScanFrom(m: LocalMoment, hs: seq<Holiday>, k: nat): (s: Slot)
    requires 1 <= k <= 8
    ensures s.DaysAhead? ==> k <= s.k <= 7 && Callable(m, hs, s.k) &&
                             forall j :: k <= j < s.k ==> !Callable(m, hs, j)
    ensures s.NoSlot? <==> forall j :: k <= j <= 7 ==> !Callable(m, hs, j)
    ensures !s.Today?
    decreases 8 - k
  {
    if k > 7 then NoSlot
    else if Callable(m, hs, k) then DaysAhead(k)
    else ScanFrom(m, hs, k + 1)
  }

  /** `getNextAvailableWeekday`: today if it is a workday before opening and no
      holiday, else the first callable day among the next seven. */
  function NextSlot(m: LocalMoment, hs: seq<Holiday>): (s: Slot)
    ensures s.Today? <==> BeforeOpeningToday(m, hs)
    ensures s.DaysAhead? ==> 1 <= s.k <= 7 && FirstCallable(m, hs, s.k)
    ensures s.NoSlot? <==> !BeforeOpeningToday(m, hs) && forall j :: 1 <= j <= 7 ==> !Callable(m, hs, j)
  {
    if IsWorkday(m.weekday) && m.hour < 9 && !HasHolidayOn(hs, m.day) then Today
    else ScanFrom(m, hs, 1)
  }

  /** The recommendation text for a slot. */
  function Phrase(m: LocalMoment, s: Slot): (p: string)
    ensures |p| >= 12 && p[..5] == "Call " && p[|p| - 7..] == " at 9AM"
  {
    match s
    case Today => CallToday
    case DaysAhead(k) => if k == 1 then CallTomorrow else CallOn(WeekdayAfter(m.weekday, k))
    case NoSlot => CallNextWeekday
  }

  /** `determineAvailabilityStatus`. */
  function Classify(m: LocalMoment, hs: seq<Holiday>): (v: Verdict)
    ensures v.status == PublicHoliday <==> HasHolidayOn(hs, m.day)
    ensures v.status == Weekend <==> !HasHolidayOn(hs, m.day) && !IsWorkday(m.weekday)
    ensures v.status == InOffice <==> !HasHolidayOn(hs, m.day) && IsWorkday(m.weekday) && 9 <= m.hour < 17
    ensures v.status == OffHours <==> !HasHolidayOn(hs, m.day) && IsWorkday(m.weekday) && !(9 <= m.hour < 17)
    ensures v.status != InOffice ==> v.recommendation == Phrase(m, NextSlot(m, hs))
  {
    if HasHolidayOn(hs, m.day) then Verdict(PublicHoliday, Phrase(m, NextSlot(m, hs)))
    else if m.weekday == 0 || m.weekday == 6 then Verdict(Weekend, Phrase(m, NextSlot(m, hs)))
    else if m.hour >= 9 && m.hour < 17 then Verdict(InOffice, FreeToCall)
    else Verdict(OffHours, Phrase(m, NextSlot(m, hs)))
  }

  /** The recommendation is never "free to call", and the three fixed texts
      each belong to one kind of slot. */
  lemma PhraseDistinct(m: LocalMoment, s: Slot)
    requires s.DaysAhead? ==> s.k >= 1
    ensures Phrase(m, s) != FreeToCall
    ensures Phrase(m, s) == CallToday <==> s.Today?
    ensures Phrase(m, s) == CallTomorrow <==> s == DaysAhead(1)
    ensures Phrase(m, s) == CallNextWeekday <==> s.NoSlot?
  {
    var p := Phrase(m, s);
    assert FreeToCall[0] == 'f' && p[0] == 'C';
    if s.DaysAhead? && s.k != 1 {
      var name := DayName(WeekdayAfter(m.weekday, s.k));
      assert p[5] == name[0];
      assert CallToday[5] == 't' && CallTomorrow[5] == 't' && CallNextWeekday[5] == 'n';
    }
  }

  /** Two slots the search can produce have the same text only when they are
      the same slot: a named day two to seven days ahead is a different weekday
      for every distance. */
  lemma PhraseIdentifiesSlot(m: LocalMoment, s: Slot, t: Slot)
    requires s.DaysAhead? ==> 1 <= s.k <= 7
    requires t.DaysAhead? ==> 1 <= t.k <= 7
    ensures Phrase(m, s) == Phrase(m, t) <==> s == t
  {
    PhraseDistinct(m, s);
    PhraseDistinct(m, t);
    if s.DaysAhead? && t.DaysAhead? && s.k != 1 && t.k != 1 && s.k != t.k {
      var a, b := WeekdayAfter(m.weekday, s.k), WeekdayAfter(m.weekday, t.k);
      assert a != b;
      DayNamesDistinct(a, b);
      assert Phrase(m, s)[5..|Phrase(m, s)| - 7] == DayName(a);
      assert Phrase(m, t)[5..|Phrase(m, t)| - 7] == DayName(b);
    }
  }

  /** "free to call" is given exactly in office hours on a working day that is
      no holiday, and no other status carries it. */
  lemma FreeToCallExactlyInOffice(m: LocalMoment, hs: seq<Holiday>)
    ensures Classify(m, hs).recommendation == FreeToCall <==> Classify(m, hs).status == InOffice
    ensures Classify(m, hs).recommendation == FreeToCall <==>
            !HasHolidayOn(hs, m.day) && IsWorkday(m.weekday) && 9 <= m.hour < 17
  {
    PhraseDistinct(m, NextSlot(m, hs));
  }

  /** "Call today at 9AM" is given exactly on a working day before 9 that is no
      holiday, and then the status is off hours. */
  lemma CallTodayExactly(m: LocalMoment, hs: seq<Holiday>)
    ensures Classify(m, hs).recommendation == CallToday <==> BeforeOpeningToday(m, hs)
    ensures Classify(m, hs).recommendation == CallToday ==> Classify(m, hs).status == OffHours
  {
    PhraseDistinct(m, NextSlot(m, hs));
  }

  /** "Call tomorrow at 9AM" is given exactly when the search runs, today does
      not qualify, and tomorrow is a working day that is no holiday. */
  lemma CallTomorrowExactly(m: LocalMoment, hs: seq<Holiday>)
    ensures Classify(m, hs).recommendation == CallTomorrow <==>
            Classify(m, hs).status != InOffice && !BeforeOpeningToday(m, hs) && Callable(m, hs, 1)
  {
    PhraseDistinct(m, NextSlot(m, hs));
  }

  /** Otherwise the recommendation names the first callable day two to seven
      days ahead, which is Monday to Friday. */
  lemma CallNamedDay(m: LocalMoment, hs: seq<Holiday>, k: nat)
    requires Classify(m, hs).status != InOffice && !BeforeOpeningToday(m, hs)
    requires 2 <= k <= 7 && FirstCallable(m, hs, k)
    ensures Classify(m, hs).recommendation == CallOn(WeekdayAfter(m.weekday, k))
    ensures IsWorkday(WeekdayAfter(m.weekday, k)) && !HasHolidayOn(hs, m.day + k)
  {
  }

  /** The fallback is given exactly when the search runs, today does not
      qualify, and every working day of the next seven is a holiday. */
  lemma FallbackExactly(m: LocalMoment, hs: seq<Holiday>)
    ensures Classify(m, hs).recommendation == CallNextWeekday <==>
            Classify(m, hs).status != InOffice && !BeforeOpeningToday(m, hs) &&
            forall j :: 1 <= j <= 7 && IsWorkday(WeekdayAfter(m.weekday, j)) ==> HasHolidayOn(hs, m.day + j)
  {
    PhraseDistinct(m, NextSlot(m, hs));
  }

  /** The number of days ahead, 1 .. 7, on which weekday `v` falls. */
  function OffsetTo(w: Weekday, v: Weekday): (k: int)
    ensures 1 <= k <= 7 && WeekdayAfter(w, k) == v
  {
    (v - w + 6) % 7 + 1
  }

  /** The days one to seven days after `m` that fall Monday to Friday. */
  ghost function WorkdaysAhead(m: LocalMoment): (five: set<Day>)
    ensures |five| == 5
    ensures forall d :: d in five ==> 1 <= d - m.day <= 7 && IsWorkday(WeekdayAfter(m.weekday, d - m.day))
  {
    FiveAheadCount(m.day, m.weekday);
    FiveAheadAreWorkdays(m.day, m.weekday);
    FiveAhead(m.day, m.weekday)
  }

  /** The next Monday, Tuesday, Wednesday, Thursday and Friday after `day`. */
  ghost function FiveAhead(day: Day, w: Weekday): set<Day>
  {
    {day + OffsetTo(w, 1), day + OffsetTo(w, 2), day + OffsetTo(w, 3), day + OffsetTo(w, 4), day + OffsetTo(w, 5)}
  }

  lemma FiveAheadCount(day: Day, w: Weekday)
    ensures |FiveAhead(day, w)| == 5
  {
    OffsetsDistinct(w);
    FiveDistinct(day + OffsetTo(w, 1), day + OffsetTo(w, 2), day + OffsetTo(w, 3), day + OffsetTo(w, 4), day + OffsetTo(w, 5));
  }

  lemma FiveAheadAreWorkdays(day: Day, w: Weekday)
    ensures forall d :: d in FiveAhead(day, w) ==> 1 <= d - day <= 7 && IsWorkday(WeekdayAfter(w, d - day))
  {
    var k1, k2, k3, k4, k5 := OffsetTo(w, 1), OffsetTo(w, 2), OffsetTo(w, 3), OffsetTo(w, 4), OffsetTo(w, 5);
    forall d | d in FiveAhead(day, w)
      ensures 1 <= d - day <= 7 && IsWorkday(WeekdayAfter(w, d - day))
    {
      var k := d - day;
      assert k == k1 || k == k2 || k == k3 || k == k4 || k == k5;
    }
  }

  /** Different target weekdays are different distances ahead. */
  lemma OffsetsDistinct(w: Weekday)
    ensures forall a: Weekday, b: Weekday :: a != b ==> OffsetTo(w, a) != OffsetTo(w, b)
  {
  }

  /** Five pairwise different days make a set of five. */
  lemma FiveDistinct(d1: Day, d2: Day, d3: Day, d4: Day, d5: Day)
    requires d1 != d2 && d1 != d3 && d1 != d4 && d1 != d5
    requires d2 != d3 && d2 != d4 && d2 != d5
    requires d3 != d4 && d3 != d5 && d4 != d5
    ensures |{d1, d2, d3, d4, d5}| == 5
  {
    assert |{d1, d2}| == 2;
    assert |{d1, d2, d3}| == 3;
    assert |{d1, d2, d3, d4}| == 4;
  }

  /** The fallback needs holidays on five different dates: the seven days ahead
      always hold five working days. */
  lemma FallbackNeedsFiveHolidayDates(m: LocalMoment, hs: seq<Holiday>)
    requires Classify(m, hs).recommendation == CallNextWeekday
    ensures |Dates(hs)| >= 5 && |hs| >= 5
  {
    FallbackExactly(m, hs);
    var five := WorkdaysAhead(m);
    forall d | d in five
      ensures d in Dates(hs)
    {
      assert m.day + (d - m.day) == d;
      HasHolidayOnDates(hs, d);
    }
    SubsetCardinality(five, Dates(hs));
    DatesCardinality(hs);
  }

  lemma SubsetCardinality(a: set<Day>, b: set<Day>)
    requires a <= b
    ensures |a| <= |b|
  {
    assert b == a + (b - a);
    assert a * (b - a) == {};
  }

  /** The verdict depends only on the set of holiday dates. */
  lemma DependsOnlyOnDates(m: LocalMoment, hs: seq<Holiday>, gs: seq<Holiday>)
    requires Dates(hs) == Dates(gs)
    ensures Classify(m, hs) == Classify(m, gs)
  {
    forall d: Day
      ensures HasHolidayOn(hs, d) <==> HasHolidayOn(gs, d)
    {
      HasHolidayOnDates(hs, d);
      HasHolidayOnDates(gs, d);
    }
    assert forall k :: Callable(m, hs, k) <==> Callable(m, gs, k);
    assert NextSlot(m, hs) == NextSlot(m, gs) by {
      ScanAgrees(m, hs, gs, 1);
    }
  }

  lemma {:induction false} ScanAgrees(m: LocalMoment, hs: seq<Holiday>, gs: seq<Holiday>, k: nat)
    requires 1 <= k <= 8
    requires forall j :: Callable(m, hs, j) <==> Callable(m, gs, j)
    ensures ScanFrom(m, hs, k) == ScanFrom(m, gs, k)
    decreases 8 - k
  {
    if k <= 7 && !Callable(m, hs, k) {
      ScanAgrees(m, hs, gs, k + 1);
    }
  }

  /** Reordering the holiday list or repeating entries in it changes nothing. */
  lemma ReorderingIrrelevant(m: LocalMoment, hs: seq<Holiday>, gs: seq<Holiday>)
    requires forall h :: h in hs <==> h in gs
    ensures Classify(m, hs) == Classify(m, gs)
  {
    DependsOnlyOnDates(m, hs, gs);
  }

  /** Friday 2025-06-27 at 14:00 without holidays: in office, free to call. */
  lemma FridayAfternoonExample()
    ensures Classify(LocalMoment(20266, 5, 14), []) == Verdict(InOffice, FreeToCall)
  {
  }

  /** Saturday 2025-06-28 at 10:00 without holidays: weekend, call Monday. */
  lemma SaturdayExample()
    ensures Classify(LocalMoment(20267, 6, 10), []) == Verdict(Weekend, "Call Monday at 9AM")
  {
    assert !Callable(LocalMoment(20267, 6, 10), [], 1);
    assert Callable(LocalMoment(20267, 6, 10), [], 2);
  }

  /** Monday 2025-06-30 at 07:00, itself a holiday: call tomorrow. */
  lemma HolidayMondayExample(h: Holiday)
    requires h.date == 20269
    ensures Classify(LocalMoment(20269, 1, 7), [h]) == Verdict(PublicHoliday, CallTomorrow)
  {
    assert [h][0].date == 20269;
    assert HasHolidayOn([h], 20269);
    assert !HasHolidayOn([h], 20270);
  }
}
