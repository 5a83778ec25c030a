/** The public-holiday client: holiday records, the "holidays in the next 30 days"
    query (year selection, per-year failure isolation, window filter, sort by
    date) and the "is today a holiday" lookup. The per-year fetch is an abstract
    function from a year to the upstream result. */
module NagerDate {
  import opened Results
  import opened Calendar

  /** One upstream holiday record; `date` is the day its `YYYY-MM-DD` string names. */
  datatype Holiday = Holiday(
    date: Day,
    localName: string,
    name: string,
    countryCode: string,
    fixed: bool,
    global: bool,
    counties: Option<seq<string>>,
    launchYear: Option<int>,
    types: seq<string>)

  /** `holidays.some(h => h.date === d)`. */
  predicate HasHolidayOn(hs: seq<Holiday>, d: Day)
  {
    exists i :: 0 <= i < |hs| && hs[i].date == d
  }

  /** The set of dates a holiday list mentions. */
  function Dates(hs: seq<Holiday>): set<Day>
  {
    set h | h in hs :: h.date
  }

  lemma HasHolidayOnDates(hs: seq<Holiday>, d: Day)
    ensures HasHolidayOn(hs, d) <==> d in Dates(hs)
  {
    if d in Dates(hs) {
      var h :| h in hs && h.date == d;
      var i :| 0 <= i < |hs| && hs[i] == h;
    }
  }

  /** A list never mentions more dates than it has entries. */
  lemma {:induction false} DatesCardinality(hs: seq<Holiday>)
    ensures |Dates(hs)| <= |hs|
  {
    if |hs| > 0 {
      var init := hs[..|hs| - 1];
      assert hs == init + [hs[|hs| - 1]];
      assert Dates(hs) == Dates(init) + {hs[|hs| - 1].date};
      DatesCardinality(init);
    }
  }

  /** The upstream per-year fetch for one country: the year's holidays, or an error. */
  type Fetch = int -> Result<seq<Holiday>>

  /** What the clock reports when the query starts: `now` in milliseconds since
      the epoch, the local calendar year of `now`, and the local calendar year of
      the instant 30 days later. */
  datatype Clock = Clock(now: int, year: int, endYear: int)

  const WindowMillis: int := 30 * MillisPerDay

  /** The end of the query window, 30 days after `now`. */
  function WindowEnd(c: Clock): int
  {
    c.now + WindowMillis
  }

  /** The years to fetch: the current year, then the window end's year if it differs. */
  function YearsToFetch(c: Clock): (ys: seq<int>)
    ensures 1 <= |ys| <= 2 && ys[0] == c.year && c.endYear in ys
    ensures |ys| == 2 <==> c.endYear != c.year
    ensures forall y :: y in ys ==> y == c.year || y == c.endYear
    ensures forall i, j :: 0 <= i < j < |ys| ==> ys[i] != ys[j]
  {
    if c.endYear != c.year then [c.year, c.endYear] else [c.year]
  }

  /** What one year's fetch adds to the collected list: its holidays, or nothing
      when the fetch failed. */
  function Contribution(r: Result<seq<Holiday>>): seq<Holiday>
  {
    match r
    case Ok(hs) => hs
    case Err(_) => []
  }

  /** The holidays of every year, concatenated in year order; a failing year is
      skipped and does not stop the others. */
  function Gather(years: seq<int>, fetch: Fetch): seq<Holiday>
  {
    if |years| == 0 then [] else Contribution(fetch(years[0])) + Gather(years[1..], fetch)
  }

  /** Gathering a run that starts with `y` collects `y`'s holidays first. */
  lemma GatherCons(y: int, rest: seq<int>, fetch: Fetch)
    ensures Gather([y] + rest, fetch) == Contribution(fetch(y)) + Gather(rest, fetch)
  {
    assert ([y] + rest)[0] == y && ([y] + rest)[1..] == rest;
  }

  /** Gathering two runs of years one after the other collects the first run's
      holidays, then the second's. */
  lemma {:induction false} GatherAppend(a: seq<int>, b: seq<int>, fetch: Fetch)
    ensures Gather(a + b, fetch) == Gather(a, fetch) + Gather(b, fetch)
  {
    if |a| == 0 {
      assert a + b == b;
    } else {
      var t := a[1..];
      assert a == [a[0]] + t && a + b == [a[0]] + (t + b);
      GatherAppend(t, b, fetch);
      GatherCons(a[0], t, fetch);
      GatherCons(a[0], t + b, fetch);
      var c0 := Contribution(fetch(a[0]));
      assert c0 + (Gather(t, fetch) + Gather(b, fetch)) == c0 + Gather(t, fetch) + Gather(b, fetch);
    }
  }

  /** The years' lists follow one another in year order: any year's list sits
      between the lists of the years before it and those after it. */
  lemma GatherInYearOrder(years: seq<int>, fetch: Fetch, i: nat)
    requires i < |years|
    ensures Gather(years, fetch) ==
            Gather(years[..i], fetch) + Contribution(fetch(years[i])) + Gather(years[i + 1..], fetch)
  {
    var pre, rest, post := years[..i], years[i..], years[i + 1..];
    YearsAround(years, i);
    GatherAppend(pre, rest, fetch);
    GatherCons(years[i], post, fetch);
    Associate(Gather(years, fetch), Gather(pre, fetch), Gather(rest, fetch),
              Contribution(fetch(years[i])), Gather(post, fetch));
  }

  /** A run of years split before and after its `i`-th year. */
  lemma YearsAround(years: seq<int>, i: nat)
    requires i < |years|
    ensures years == years[..i] + years[i..] && years[i..] == [years[i]] + years[i + 1..]
  {
  }

  /** Regrouping a concatenation of three pieces. */
  lemma Associate(all: seq<Holiday>, g: seq<Holiday>, x: seq<Holiday>, c: seq<Holiday>, h: seq<Holiday>)
    requires all == g + x && x == c + h
    ensures all == g + c + h
  {
  }

  /** A holiday is collected exactly when some year's fetch succeeded and returned it. */
  lemma {:induction false} GatherMembers(years: seq<int>, fetch: Fetch, h: Holiday)
    ensures h in Gather(years, fetch) <==>
            exists i :: 0 <= i < |years| && fetch(years[i]).Ok? && h in fetch(years[i]).value
  {
    if |years| > 0 {
      GatherMembers(years[1..], fetch, h);
      if h in Gather(years, fetch) && h !in Contribution(fetch(years[0])) {
        var i :| 0 <= i < |years[1..]| && fetch(years[1..][i]).Ok? && h in fetch(years[1..][i]).value;
        assert years[i + 1] == years[1..][i];
      }
      if exists i :: 0 <= i < |years| && fetch(years[i]).Ok? && h in fetch(years[i]).value {
        var i :| 0 <= i < |years| && fetch(years[i]).Ok? && h in fetch(years[i]).value;
        if i > 0 {
          assert years[1..][i - 1] == years[i];
        }
      }
    }
  }

  /** A failed fetch behaves exactly like a year without holidays. */
  lemma {:induction false} FailedYearIsEmptyYear(years: seq<int>, fetch: Fetch, other: Fetch, y: int)
    requires fetch(y).Err? && other(y) == Ok([])
    requires forall z :: z != y ==> fetch(z) == other(z)
    ensures Gather(years, fetch) == Gather(years, other)
  {
    if |years| > 0 {
      FailedYearIsEmptyYear(years[1..], fetch, other, y);
    }
  }

  /** The instant the filter compares: midnight UTC of the holiday's date. */
  function Instant(h: Holiday): int
  {
    Midnight(h.date)
  }

  /** The window test `holidayDate >= today && holidayDate <= endDate`. */
  predicate InWindow(h: Holiday, c: Clock)
  {
    c.now <= Instant(h) <= WindowEnd(c)
  }

  /** The holidays that pass the window test, in their original order, each as
      often as it occurs. */
  function Window(hs: seq<Holiday>, c: Clock): (r: seq<Holiday>)
    ensures forall h :: multiset(r)[h] == if InWindow(h, c) then multiset(hs)[h] else 0
    ensures |r| <= |hs|
  {
    if |hs| == 0 then []
    else
      var init, last := hs[..|hs| - 1], hs[|hs| - 1];
      assert hs == init + [last];
      Window(init, c) + (if InWindow(last, c) then [last] else [])
  }

  /** The window test depends only on the date, so on every date the window
      keeps all of that date's entries, in their order, or none of them. */
  lemma {:induction false} WindowKeepsDateOrder(hs: seq<Holiday>, c: Clock, d: Day)
    ensures OnDate(Window(hs, c), d) == if c.now <= Midnight(d) <= WindowEnd(c) then OnDate(hs, d) else []
  {
    if |hs| > 0 {
      var init, last := hs[..|hs| - 1], hs[|hs| - 1];
      assert hs == init + [last];
      var kept := Window(init, c);
      assert Window(hs, c) == kept + (if InWindow(last, c) then [last] else []);
      WindowKeepsDateOrder(init, c, d);
      WindowOnDateStep(kept, init, last, c, d);
    }
  }

  /** One step of `Window` keeps the entries of each date as the whole window does. */
  lemma WindowOnDateStep(kept: seq<Holiday>, init: seq<Holiday>, last: Holiday, c: Clock, d: Day)
    requires OnDate(kept, d) == if c.now <= Midnight(d) <= WindowEnd(c) then OnDate(init, d) else []
    ensures OnDate(kept + (if InWindow(last, c) then [last] else []), d) ==
            if c.now <= Midnight(d) <= WindowEnd(c) then OnDate(init + [last], d) else []
  {
    OnDateAppend(init, last, d);
    if InWindow(last, c) {
      OnDateAppend(kept, last, d);
    } else {
      assert kept + [] == kept;
    }
  }

  /** Ascending by date; equal dates may appear in any order. */
  predicate Sorted(s: seq<Holiday>)
  {
    forall i, j :: 0 <= i < j < |s| ==> s[i].date <= s[j].date
  }

  /** Appending an entry dated no earlier than everything before it keeps a list sorted. */
  lemma SortedAppend(s: seq<Holiday>, x: Holiday)
    requires Sorted(s)
    requires forall i :: 0 <= i < |s| ==> s[i].date <= x.date
    ensures Sorted(s + [x])
  {
  }

  /** Inserts `h` into a sorted list after every entry with the same or an earlier date. */
  function Insert(h: Holiday, s: seq<Holiday>): (r: seq<Holiday>)
    requires Sorted(s)
    ensures Sorted(r)
    ensures multiset(r) == multiset(s) + multiset{h}
    decreases |s|
  {
    if |s| == 0 then [h]
    else if s[|s| - 1].date <= h.date then
      SortedAppend(s, h);
      s + [h]
    else
      var init, last := s[..|s| - 1], s[|s| - 1];
      assert s == init + [last];
      var r' := Insert(h, init);
      InsertBounded(h, init, r', last.date);
      SortedAppend(r', last);
      r' + [last]
  }

  /** Every entry of a list built from `init` and `h` is dated no later than a
      bound both respect. */
  lemma InsertBounded(h: Holiday, init: seq<Holiday>, r: seq<Holiday>, bound: Day)
    requires forall i :: 0 <= i < |init| ==> init[i].date <= bound
    requires h.date <= bound
    requires multiset(r) == multiset(init) + multiset{h}
    ensures forall i :: 0 <= i < |r| ==> r[i].date <= bound
  {
    forall i | 0 <= i < |r|
      ensures r[i].date <= bound
    {
      assert r[i] in multiset(r);
      if r[i] != h {
        assert r[i] in multiset(init);
        var k :| 0 <= k < |init| && init[k] == r[i];
      }
    }
  }

  /** `list.sort((a, b) => date(a) - date(b))`, as a stable insertion sort. */
  function SortByDate(s: seq<Holiday>): (r: seq<Holiday>)
    ensures Sorted(r)
    ensures multiset(r) == multiset(s)
  {
    if |s| == 0 then []
    else
      assert s == s[..|s| - 1] + [s[|s| - 1]];
      Insert(s[|s| - 1], SortByDate(s[..|s| - 1]))
  }

  /** `[x]` when `x` is dated `d`, otherwise nothing. */
  function IfOn(x: Holiday, d: Day): seq<Holiday>
  {
    if x.date == d then [x] else []
  }

  /** The entries of `s` dated `d`, in their order in `s`. */
  function OnDate(s: seq<Holiday>, d: Day): seq<Holiday>
  {
    if |s| == 0 then [] else OnDate(s[..|s| - 1], d) + IfOn(s[|s| - 1], d)
  }

  lemma OnDateAppend(s: seq<Holiday>, x: Holiday, d: Day)
    ensures OnDate(s + [x], d) == OnDate(s, d) + IfOn(x, d)
  {
    assert (s + [x])[..|s|] == s;
  }

  lemma {:induction false} InsertStable(h: Holiday, s: seq<Holiday>, d: Day)
    requires Sorted(s)
    ensures OnDate(Insert(h, s), d) == OnDate(s, d) + IfOn(h, d)
    decreases |s|
  {
    if |s| == 0 {
      OnDateAppend([], h, d);
    } else if s[|s| - 1].date <= h.date {
      OnDateAppend(s, h, d);
    } else {
      var init, last := s[..|s| - 1], s[|s| - 1];
      assert s == init + [last];
      assert Sorted(init);
      InsertStable(h, init, d);
      InsertBeforeLast(h, init, last);
      OnDatePastLast(Insert(h, init), init, h, last, d);
    }
  }

  /** Inserting before the last entry leaves that entry last. */
  lemma InsertBeforeLast(h: Holiday, init: seq<Holiday>, last: Holiday)
    requires Sorted(init) && Sorted(init + [last]) && h.date < last.date
    ensures Insert(h, init + [last]) == Insert(h, init) + [last]
  {
    var s := init + [last];
    assert s[..|s| - 1] == init && s[|s| - 1] == last;
  }

  /** Entries on different dates commute under `OnDate`. */
  lemma OnDatePastLast(r: seq<Holiday>, init: seq<Holiday>, h: Holiday, last: Holiday, d: Day)
    requires h.date < last.date
    requires OnDate(r, d) == OnDate(init, d) + IfOn(h, d)
    ensures OnDate(r + [last], d) == OnDate(init + [last], d) + IfOn(h, d)
  {
    OnDateAppend(r, last, d);
    OnDateAppend(init, last, d);
    assert IfOn(h, d) == [] || IfOn(last, d) == [];
    SwapPastEmpty(OnDate(init, d), IfOn(h, d), IfOn(last, d));
  }

  /** Two pieces commute when one of them is empty. */
  lemma SwapPastEmpty(x: seq<Holiday>, a: seq<Holiday>, b: seq<Holiday>)
    requires a == [] || b == []
    ensures x + a + b == x + b + a
  {
    if a == [] {
      assert x + a + b == x + b;
      assert x + b + a == x + b;
    } else {
      assert x + a + b == x + a;
      assert x + b + a == x + a;
    }
  }

  /** The sort is stable: for every date, the entries on that date keep their
      relative order. */
  lemma {:induction false} SortByDateStable(s: seq<Holiday>, d: Day)
    ensures OnDate(SortByDate(s), d) == OnDate(s, d)
  {
    if |s| > 0 {
      var init, last := s[..|s| - 1], s[|s| - 1];
      SortByDateStable(init, d);
      InsertStable(last, SortByDate(init), d);
    }
  }

  /** `getHolidaysForRange`: the holidays of the fetched years that fall within
      30 days from now, sorted ascending by date. */
  function HolidaysForRange(c: Clock, fetch: Fetch): (r: seq<Holiday>)
    ensures Sorted(r)
    ensures forall h :: h in r ==> InWindow(h, c)
    ensures multiset(r) == multiset(Window(Gather(YearsToFetch(c), fetch), c))
  {
    var r := SortByDate(Window(Gather(YearsToFetch(c), fetch), c));
    assert forall h :: h in r ==> InWindow(h, c) by {
      forall h | h in r ensures InWindow(h, c) {
        assert multiset(r)[h] > 0;
      }
    }
    r
  }

  /** Entries that share a date keep the order the fetched years gave them:
      years in order, and the upstream order within a year. */
  lemma RangeKeepsDateOrder(c: Clock, fetch: Fetch, d: Day)
    ensures OnDate(HolidaysForRange(c, fetch), d) ==
            if c.now <= Midnight(d) <= WindowEnd(c) then OnDate(Gather(YearsToFetch(c), fetch), d) else []
  {
    var w := Window(Gather(YearsToFetch(c), fetch), c);
    SortByDateStable(w, d);
    WindowKeepsDateOrder(Gather(YearsToFetch(c), fetch), c, d);
  }

  /** A holiday is returned exactly when one of the fetched years returned it and
      it lies inside the window. */
  lemma RangeMembers(c: Clock, fetch: Fetch, h: Holiday)
    ensures h in HolidaysForRange(c, fetch) <==>
            InWindow(h, c) &&
            ((fetch(c.year).Ok? && h in fetch(c.year).value) ||
             (fetch(c.endYear).Ok? && h in fetch(c.endYear).value))
  {
    var ys := YearsToFetch(c);
    var all := Gather(ys, fetch);
    GatherMembers(ys, fetch, h);
    assert h in HolidaysForRange(c, fetch) <==> multiset(Window(all, c))[h] > 0;
    assert h in all <==> multiset(all)[h] > 0;
  }

  /** A holiday dated on the current UTC day is left out of the range whenever
      `now` is later than that day's midnight, which is almost always. */
  lemma TodaysHolidayExcluded(c: Clock, fetch: Fetch, h: Holiday)
    requires Midnight(h.date) < c.now
    ensures h !in HolidaysForRange(c, fetch)
  {
  }

  /** `holidays.find(h => h.date === today)`: the first holiday dated `d`, if any. */
  function FindOn(hs: seq<Holiday>, d: Day): (r: Option<Holiday>)
    ensures r.None? <==> !HasHolidayOn(hs, d)
    ensures r.Some? ==> exists i :: 0 <= i < |hs| && hs[i] == r.value && r.value.date == d &&
                                    forall j :: 0 <= j < i ==> hs[j].date != d
  {
    if |hs| == 0 then None
    else if hs[0].date == d then Some(hs[0])
    else
      var r := FindOn(hs[1..], d);
      assert r.Some? ==> exists i :: 0 <= i < |hs| && hs[i] == r.value && r.value.date == d &&
                                     forall j :: 0 <= j < i ==> hs[j].date != d by {
        if r.Some? {
          var i :| 0 <= i < |hs[1..]| && hs[1..][i] == r.value && r.value.date == d &&
                   forall j :: 0 <= j < i ==> hs[1..][j].date != d;
          assert hs[i + 1] == r.value;
          forall j | 0 <= j < i + 1 ensures hs[j].date != d {
            if j > 0 { assert hs[j] == hs[1..][j - 1]; }
          }
        }
      }
      assert r.None? <==> !HasHolidayOn(hs, d) by {
        assert forall i :: 0 < i < |hs| ==> hs[i] == hs[1..][i - 1];
      }
      r
  }

  /** `isTodayHoliday`: fetch the current year's holidays and return the first one
      dated today's UTC date; a failing fetch is an error, not a "no". */
  function IsTodayHoliday(today: Day, year: int, fetch: Fetch): (r: Result<Option<Holiday>>)
    ensures fetch(year).Err? <==> r.Err?
    ensures r.Ok? ==> (r.value.None? <==> !HasHolidayOn(fetch(year).value, today))
    ensures r.Ok? && r.value.Some? ==>
              exists i :: 0 <= i < |fetch(year).value| && fetch(year).value[i] == r.value.value &&
                          r.value.value.date == today &&
                          forall j :: 0 <= j < i ==> fetch(year).value[j].date != today
  {
    match fetch(year)
    case Err(e) => Err(e)
    case Ok(hs) => Ok(FindOn(hs, today))
  }
}
