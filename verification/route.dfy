/** The contact-availability endpoint: checks the query, resolves the country,
    builds the location string, runs the timezone lookup, the 30-day holiday
    query and the classifier, and assembles the reply. The country resolver,
    the timezone lookup and the per-year holiday fetch are abstract functions. */
module ContactAvailabilityRoute {
  import opened Results
  import opened Text
  import opened Calendar
  import opened NagerDate
  import opened Availability
  import opened TimezoneClient

  /** The query parameters as `searchParams.get` returns them: absent or a string. */
  datatype Query = Query(city: Option<string>, state: Option<string>, country: Option<string>)

  /** A parameter counts as given when it is present and not empty. */
  predicate Given(p: Option<string>)
  {
    p.Some? && p.value != []
  }

  /** The success body; the locale-formatted date and time are not modelled. */
  datatype Body = Body(timezone: string, availability: Verdict, holidays: seq<Holiday>)

  /** 200 with a body, 400 with a message, or 500 with a message. */
  datatype Reply = Success(body: Body) | BadRequest(error: string) | ServerError(error: string)

  /** Maps a country name to its ISO 3166-1 alpha-2 code, if it knows the name.
      An absent or empty code both count as unsupported, as any falsy code does. */
  type Resolver = string -> Option<string>

  /** The upstream holiday fetch for a country code and a year. */
  type CountryFetch = (string, int) -> Result<seq<Holiday>>

  const MissingParameters: string :=
    "City and country parameters are required. Use ?city=Boston&state=MA&country=United States"

  /** `supported.slice(0, 10)`: the first ten names, or all of them when there
      are fewer. */
  function Examples(supported: seq<string>): (ex: seq<string>)
    ensures |ex| == if |supported| <= 10 then |supported| else 10
    ensures ex == supported[..|ex|]
  {
    if |supported| <= 10 then supported else supported[..10]
  }

  /** The opening of the unsupported-country message, quoting the name. */
  function UnsupportedOpening(country: string): string
  {
    "Unsupported country: \"" + country + "\"."
  }

  /** Everything of the unsupported-country message before the example names. */
  function UnsupportedLead(country: string): string
  {
    UnsupportedOpening(country) + " Please use a valid country name like: "
  }

  /** The unsupported-country message: the name as the caller wrote it, quoted,
      then the example names joined with `, `. */
  function UnsupportedCountry(country: string, supported: seq<string>): (msg: string)
    ensures PieceAt(msg, 0, UnsupportedOpening(country))
  {
    var msg := UnsupportedLead(country) + Join(Examples(supported), ", ");
    assert msg[..|UnsupportedOpening(country)|] == UnsupportedOpening(country);
    msg
  }

  /** The message is the lead sentence, ending in `Please use a valid country
      name like: `, followed by the joined example names and nothing else. */
  lemma UnsupportedCountryLayout(country: string, supported: seq<string>)
    ensures var msg := UnsupportedCountry(country, supported);
            && PieceAt(msg, 0, UnsupportedLead(country))
            && |msg| == |UnsupportedLead(country)| + |Join(Examples(supported), ", ")|
  {
    var lead, names := UnsupportedLead(country), Join(Examples(supported), ", ");
    assert UnsupportedCountry(country, supported) == lead + names;
    assert (lead + names)[..|lead|] == lead;
  }

  /** In `lead + Join(names, sep)`, name `i` sits at its join offset after the lead. */
  lemma NameAfterLead(lead: string, names: seq<string>, sep: string, i: nat)
    requires i < |names|
    ensures PieceAt(lead + Join(names, sep), |lead| + JoinOffset(names, sep, i), names[i])
  {
    JoinPartAt(names, sep, i);
    ShiftSlice(lead, Join(names, sep), JoinOffset(names, sep, i), names[i]);
  }

  /** In `lead + Join(names, sep)`, the separator follows name `i` when it is not the last. */
  lemma SeparatorAfterLead(lead: string, names: seq<string>, sep: string, i: nat)
    requires i + 1 < |names|
    ensures PieceAt(lead + Join(names, sep), |lead| + JoinOffset(names, sep, i) + |names[i]|, sep)
  {
    JoinSepAfter(names, sep, i);
    ShiftSlice(lead, Join(names, sep), JoinOffset(names, sep, i) + |names[i]|, sep);
  }

  /** Each of the first ten supported names appears whole in the message, in
      order: name `i` starts after the lead and the `i` earlier names with
      their separators. */
  lemma UnsupportedCountryName(country: string, supported: seq<string>, i: nat)
    requires i < |supported| && i < 10
    ensures PieceAt(UnsupportedCountry(country, supported),
                    |UnsupportedLead(country)| + JoinOffset(Examples(supported), ", ", i), supported[i])
  {
    var ex := Examples(supported);
    assert ex[i] == supported[i];
    NameAfterLead(UnsupportedLead(country), ex, ", ", i);
  }

  /** Every example name but the last is followed by `, `. */
  lemma UnsupportedCountrySeparator(country: string, supported: seq<string>, i: nat)
    requires i + 1 < |supported| && i + 1 < 10
    ensures PieceAt(UnsupportedCountry(country, supported),
                    |UnsupportedLead(country)| + JoinOffset(Examples(supported), ", ", i) + |supported[i]|, ", ")
  {
    var ex := Examples(supported);
    assert ex[i] == supported[i];
    SeparatorAfterLead(UnsupportedLead(country), ex, ", ", i);
  }

  /** The city, the state when given, and the country name as the caller wrote it. */
  function LocationParts(city: string, state: Option<string>, country: string): (parts: seq<string>)
    ensures |parts| == if Given(state) then 3 else 2
    ensures parts[0] == city && parts[|parts| - 1] == country
    ensures Given(state) ==> parts[1] == state.value
  {
    [city] + (if Given(state) then [state.value] else []) + [country]
  }

  /** The location string handed to the timezone lookup. */
  function Location(city: string, state: Option<string>, country: string): (loc: string)
    ensures |loc| == |city| + 1 + |country| + (if Given(state) then |state.value| + 1 else 0)
    ensures loc[..|city|] == city && loc[|loc| - |country|..] == country
  {
    var parts := LocationParts(city, state, country);
    var loc := Join(parts, ",");
    var tail := if Given(state) then state.value + "," + country else country;
    assert loc == city + "," + tail by {
      if Given(state) {
        assert parts == [city] + [state.value, country];
        JoinCons(state.value, [country], ",");
        JoinCons(city, [state.value, country], ",");
      } else {
        assert parts == [city] + [country];
        JoinCons(city, [country], ",");
      }
    }
    assert loc[|loc| - |country|..] == country by {
      assert tail[|tail| - |country|..] == country;
    }
    loc
  }

  /** Splitting the location string at commas gives back city, state (when
      given) and country, provided none of them contains a comma. */
  lemma LocationRoundTrip(city: string, state: Option<string>, country: string)
    requires ',' !in city && ',' !in country
    requires Given(state) ==> ',' !in state.value
    ensures Split(Location(city, state, country), ',') == LocationParts(city, state, country)
  {
    SplitJoin(LocationParts(city, state, country), ',');
  }

  /** The holiday fetch for one country, as the year-only fetch the holiday
      query takes. */
  function ForCountry(fetch: CountryFetch, code: string): Fetch
  {
    year => fetch(code, year)
  }

  /** `GET /api/contact-availability`. */
  function Get(q: Query, resolve: Resolver, supported: seq<string>, lookup: Lookup, clock: Clock, fetch: CountryFetch): (r: Reply)
    ensures !Given(q.city) || !Given(q.country) ==> r == BadRequest(MissingParameters)
    ensures Given(q.city) && Given(q.country) && !Given(resolve(q.country.value)) ==>
              r == BadRequest(UnsupportedCountry(q.country.value, supported))
    ensures Given(q.city) && Given(q.country) && Given(resolve(q.country.value)) ==>
              var tz := lookup(Location(q.city.value, q.state, q.country.value));
              (tz.Err? ==> r == ServerError(tz.message)) &&
              (tz.Ok? ==> r.Success? &&
                          r.body.holidays == HolidaysForRange(clock, ForCountry(fetch, resolve(q.country.value).value)) &&
                          r.body.availability == Classify(tz.value.moment, r.body.holidays) &&
                          r.body.timezone == tz.value.abbreviation)
  {
    if !Given(q.city) || !Given(q.country) then BadRequest(MissingParameters)
    else
      var city, country := q.city.value, q.country.value;
      var code := resolve(country);
      if !Given(code) then BadRequest(UnsupportedCountry(country, supported))
      else
        match lookup(Location(city, q.state, country))
        case Err(e) => ServerError(e)
        case Ok(tz) =>
          var holidays := HolidaysForRange(clock, ForCountry(fetch, code.value));
          Success(Body(tz.abbreviation, Classify(tz.moment, holidays), holidays))
  }

  /** A missing parameter is reported before anything else is consulted: the
      reply does not depend on the resolver, the lookup or the fetch. */
  lemma ValidationComesFirst(q: Query, supported: seq<string>, clock: Clock,
                             resolve: Resolver, lookup: Lookup, fetch: CountryFetch,
                             resolve': Resolver, lookup': Lookup, fetch': CountryFetch)
    requires !Given(q.city) || !Given(q.country)
    ensures Get(q, resolve, supported, lookup, clock, fetch) == Get(q, resolve', supported, lookup', clock, fetch')
  {
  }

  /** Only the first ten supported names can appear in the message: names
      after the tenth never change it. */
  lemma UnsupportedNamesFirstTen(country: string, supported: seq<string>, more: seq<string>)
    requires |supported| >= 10
    ensures UnsupportedCountry(country, supported + more) == UnsupportedCountry(country, supported)
  {
    assert Examples(supported + more) == Examples(supported);
  }

  /** When the query is valid and the lookup succeeds, the reply is a success
      whose holidays are sorted by date and inside the 30-day window, and whose
      status is public holiday exactly when one of them falls on the contact's day. */
  lemma SuccessfulReply(q: Query, resolve: Resolver, supported: seq<string>, lookup: Lookup, clock: Clock, fetch: CountryFetch)
    requires Given(q.city) && Given(q.country) && Given(resolve(q.country.value))
    requires lookup(Location(q.city.value, q.state, q.country.value)).Ok?
    ensures var r := Get(q, resolve, supported, lookup, clock, fetch);
            var day := lookup(Location(q.city.value, q.state, q.country.value)).value.moment.day;
            && r.Success?
            && Sorted(r.body.holidays)
            && (forall h :: h in r.body.holidays ==> InWindow(h, clock))
            && (r.body.availability.status == PublicHoliday <==> exists h :: h in r.body.holidays && h.date == day)
  {
    var b := Get(q, resolve, supported, lookup, clock, fetch).body;
    var day := lookup(Location(q.city.value, q.state, q.country.value)).value.moment.day;
    HasHolidayOnDates(b.holidays, day);
  }

  /** The status is public holiday only while the contact's local date has not
      yet begun in UTC: once `now` is past that day's UTC midnight, the holiday
      window has dropped the holiday. Contacts east of UTC can see the status
      in the early hours of their local day. */
  lemma PublicHolidayOnlyBeforeUtcMidnight(q: Query, resolve: Resolver, supported: seq<string>, lookup: Lookup, clock: Clock, fetch: CountryFetch)
    requires Given(q.city) && Given(q.country) && Given(resolve(q.country.value))
    requires lookup(Location(q.city.value, q.state, q.country.value)).Ok?
    ensures var day := lookup(Location(q.city.value, q.state, q.country.value)).value.moment.day;
            Midnight(day) < clock.now ==>
              Get(q, resolve, supported, lookup, clock, fetch).body.availability.status != PublicHoliday
  {
    SuccessfulReply(q, resolve, supported, lookup, clock, fetch);
  }
}
