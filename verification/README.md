# Contact call availability — a Dafny model

This project models the decision logic of a small contact-availability
backend. Given a contact's city, optional state and country, the backend
looks up the contact's local time and the country's public holidays for the
next 30 days. It then classifies the contact as `in office`, `public holiday`,
`weekend` or `off hours`, and recommends when to call ("free to call",
"Call today at 9AM", "Call tomorrow at 9AM", "Call Monday at 9AM", or the
fallback "Call next weekday at 9AM").

Modules, one per source component:

- `Calendar` (`calendar.dfy`): days as integers (days since 1970-01-01), weekdays
  numbered as `Date.prototype.getDay` numbers them, hours, weekday names. A
  holiday's `YYYY-MM-DD` date stands for its day number, so string equality of
  dates is integer equality. The weekday `k` days after weekday `w` is `(w + k) % 7`.
- `Availability` (`availability.dfy`): `determineAvailabilityStatus` and its
  next-slot search `getNextAvailableWeekday`. The search goes through a `Slot`
  (later today, `k` days ahead, or none), which `Phrase` renders as the
  recommendation text. The seven-day scan is a recursion on a counter.
- `NagerDate` (`nager_date.dfy`): the holiday record, the 30-day query
  `getHolidaysForRange` and the lookup `isTodayHoliday`. The upstream per-year
  fetch is an abstract function `year -> Result<seq<Holiday>>`. Instants are
  milliseconds since the epoch; a holiday's instant is midnight UTC of its date.
- `TimezoneClient` (`timezone.dfy`): the constructor's base-URL default and the
  GMT offset label `getTimezoneOffset`. Offsets are whole minutes, with
  `ParseOffset` as its inverse.
- `ContactAvailabilityRoute` (`route.dfy`): the `GET` handler of the composite
  endpoint. The country resolver, the timezone lookup and the holiday fetch
  are function parameters.
- `Text` (`text.dfy`) and `Results` (`results.dfy`): the string operations the
  runtime supplies (`toString`, `padStart`, `join`, plus `split` as the inverse
  of `join`), and `Option`/`Result`.

Two points of the code's behaviour that its names and comments do not show:

- `getHolidaysForRange` is documented as returning the holidays "within the
  next 30 days from today" (`nager-date-api.ts:80`). Its filter compares each
  holiday's midnight-UTC instant with the current instant, not calendar days.
  So a holiday whose date has already begun in UTC is dropped unless the query
  runs at exactly midnight UTC (`NagerDate.TodaysHolidayExcluded`). The
  classifier's `public holiday` status therefore fires only while the
  contact's local date has not yet begun in UTC
  (`ContactAvailabilityRoute.PublicHolidayOnlyBeforeUtcMidnight`). For a
  contact east of UTC that is the first hours of their local day: at 07:00 in
  UTC+9 on a holiday, UTC is still on the day before, the holiday passes the
  window and the status is `public holiday`.
- `determineAvailabilityStatus` takes a list of holidays
  (`contact-availability-utils.ts:21`). Only the list's set of dates matters
  (`Availability.DependsOnlyOnDates`).

## Model

| member | source | states |
|---|---|---|
| `Availability.LabelsDistinct` | contact-availability-backend/app/lib/contact-availability-utils.ts:12 | the four status labels `in office`, `public holiday`, `weekend`, `off hours` are pairwise distinct, so a label names exactly one status |
| `Availability.ScanFrom` | contact-availability-backend/app/lib/contact-availability-utils.ts:42-65 | the scan from day `k` stops at the first day up to 7 ahead that is Monday–Friday and no holiday; it reports no slot exactly when no such day exists |
| `Availability.NextSlot` | contact-availability-backend/app/lib/contact-availability-utils.ts:29-69 | the search gives "today" exactly on a workday before 9 that is no holiday; otherwise it gives the first callable day among the next seven, or no slot when none of them is callable |
| `Availability.Classify` | contact-availability-backend/app/lib/contact-availability-utils.ts:71-100 | exactly one status applies: public holiday iff today's date is a holiday; weekend iff not a holiday and Saturday or Sunday; in office iff not a holiday, Mon–Fri and 9 ≤ hour < 17; off hours in every remaining case; every status but in office carries the next-slot recommendation |
| `Availability.Phrase` | contact-availability-backend/app/lib/contact-availability-utils.ts:37-68 | every recommendation the search can produce has the shape `Call … at 9AM` |
| `Availability.PhraseDistinct` | contact-availability-backend/app/lib/contact-availability-utils.ts:29-69 | no recommendation is "free to call"; "Call today at 9AM" belongs exactly to today, "Call tomorrow at 9AM" exactly to one day ahead, and the fallback exactly to no slot |
| `Availability.PhraseIdentifiesSlot` | contact-availability-backend/app/lib/contact-availability-utils.ts:29-69 | two slots the search can produce get the same text iff they are the same slot; in particular named days two to seven days ahead are different weekdays with different names |
| `Availability.FreeToCallExactlyInOffice` | contact-availability-backend/app/lib/contact-availability-utils.ts:88-94 | "free to call" is returned iff the status is in office, iff today is no holiday, Mon–Fri and 9 ≤ hour < 17 |
| `Availability.CallTodayExactly` | contact-availability-backend/app/lib/contact-availability-utils.ts:33-39 | "Call today at 9AM" is returned iff today is Mon–Fri, before 9 and no holiday, and then the status is off hours (never public holiday or weekend) |
| `Availability.CallTomorrowExactly` | contact-availability-backend/app/lib/contact-availability-utils.ts:53-57 | "Call tomorrow at 9AM" is returned iff the search runs, today does not qualify, and tomorrow is Mon–Fri and no holiday |
| `Availability.CallNamedDay` | contact-availability-backend/app/lib/contact-availability-utils.ts:45-60 | when the first callable day is 2–7 days ahead, the recommendation names that day's weekday, which is Monday–Friday and no holiday |
| `Availability.FallbackExactly` | contact-availability-backend/app/lib/contact-availability-utils.ts:44-68 | "Call next weekday at 9AM" is returned iff the search runs, today does not qualify, and every Mon–Fri day among the next seven is a holiday |
| `Availability.WorkdaysAhead` | contact-availability-backend/app/lib/contact-availability-utils.ts:45-50 | the seven days after any day contain five distinct Monday–Friday days |
| `Availability.FallbackNeedsFiveHolidayDates` | contact-availability-backend/app/lib/contact-availability-utils.ts:44-68 | the fallback needs holidays on at least five distinct dates, so the holiday list has at least five entries |
| `Availability.DependsOnlyOnDates` | contact-availability-backend/app/lib/contact-availability-utils.ts:19-101 | two holiday lists with the same set of dates give the same status and recommendation |
| `Availability.ReorderingIrrelevant` | contact-availability-backend/app/lib/contact-availability-utils.ts:19-101 | reordering or duplicating entries of the holiday list changes nothing |
| `Availability.FridayAfternoonExample` | contact-availability-backend/app/lib/contact-availability-utils.ts:88-94 | Friday 2025-06-27 at 14:00 without holidays is in office, free to call |
| `Availability.SaturdayExample` | contact-availability-backend/app/lib/contact-availability-utils.ts:80-86 | Saturday 2025-06-28 at 10:00 is weekend with "Call Monday at 9AM" (Sunday is skipped) |
| `Availability.HolidayMondayExample` | contact-availability-backend/app/lib/contact-availability-utils.ts:71-78 | Monday 2025-06-30 at 07:00, itself a holiday, is public holiday with "Call tomorrow at 9AM" |
| `Calendar.DayName` | contact-availability-backend/app/lib/contact-availability-utils.ts:30 | weekday names are capitalised words of at least six letters, which keeps a named-day recommendation apart from the "today", "tomorrow" and "next weekday" texts |
| `Calendar.DayNamesDistinct` | contact-availability-backend/app/lib/contact-availability-utils.ts:30 | two weekdays have the same name iff they are the same weekday |
| `Calendar.MidnightOrder` | contact-availability-backend/app/lib/nager-date-api.ts:111 | ordering holidays by their midnight instants is ordering them by date |
| `NagerDate.HasHolidayOnDates` | contact-availability-backend/app/lib/contact-availability-utils.ts:51 | `holidays.some(h => h.date === d)` (`HasHolidayOn`) holds iff the date is in the list's set of dates |
| `NagerDate.YearsToFetch` | contact-availability-backend/app/lib/nager-date-api.ts:89-92 | the years start with the current year; the window end's year is added only when it differs; one or two distinct years |
| `NagerDate.GatherAppend` | contact-availability-backend/app/lib/nager-date-api.ts:94-102 | the per-year loop (`Gather`) concatenates in year order: gathering two runs of years collects the first run's holidays, then the second's |
| `NagerDate.GatherInYearOrder` | contact-availability-backend/app/lib/nager-date-api.ts:94-102 | each year's list, in upstream order, sits between the lists of the earlier and the later years |
| `NagerDate.GatherMembers` | contact-availability-backend/app/lib/nager-date-api.ts:94-102 | a holiday is collected iff some year's fetch succeeded and returned it; a failed year does not stop the others |
| `NagerDate.FailedYearIsEmptyYear` | contact-availability-backend/app/lib/nager-date-api.ts:95-101 | a year whose fetch fails contributes exactly what a year without holidays would |
| `NagerDate.Window` | contact-availability-backend/app/lib/nager-date-api.ts:105-108 | the filter keeps every holiday with now ≤ its midnight ≤ now + 30 days, as often as it occurs, and drops every other |
| `NagerDate.WindowKeepsDateOrder` | contact-availability-backend/app/lib/nager-date-api.ts:105-108 | the filter keeps, for each date, all of that date's entries in their order when the date's midnight is in the window, and none otherwise |
| `NagerDate.Insert` | contact-availability-backend/app/lib/nager-date-api.ts:111 | inserting into a date-sorted list keeps it sorted and adds exactly the one entry |
| `NagerDate.SortByDate` | contact-availability-backend/app/lib/nager-date-api.ts:111 | the sort returns a permutation of its input in ascending date order |
| `NagerDate.SortByDateStable` | contact-availability-backend/app/lib/nager-date-api.ts:111 | the sort is stable: entries on the same date keep their relative order |
| `NagerDate.HolidaysForRange` | contact-availability-backend/app/lib/nager-date-api.ts:84-113 | the result is sorted ascending, every entry lies in the 30-day window, and it is a permutation of exactly the fetched holidays that pass the window test |
| `NagerDate.RangeKeepsDateOrder` | contact-availability-backend/app/lib/nager-date-api.ts:94-111 | entries on one date come out in the order the fetches gave them, years in order and upstream order within a year |
| `NagerDate.RangeMembers` | contact-availability-backend/app/lib/nager-date-api.ts:84-112 | a holiday is returned iff the current year's or the end year's fetch succeeded and returned it, and it lies in the window |
| `NagerDate.TodaysHolidayExcluded` | contact-availability-backend/app/lib/nager-date-api.ts:85-108 | a holiday whose midnight UTC is before the current instant, including one on the current day, is never returned |
| `NagerDate.FindOn` | contact-availability-backend/app/lib/nager-date-api.ts:71-72 | the lookup returns the first holiday dated today, or nothing iff no holiday is dated today |
| `NagerDate.IsTodayHoliday` | contact-availability-backend/app/lib/nager-date-api.ts:66-77 | a failed fetch is an error; otherwise the answer is the first holiday of the current year's list dated today, or nothing iff there is none |
| `TimezoneClient.NewClient` | contact-availability-backend/app/lib/abstract-timezone-api.ts:33-36 | the API key is kept; an absent or empty base URL becomes the default, any other is kept; the base URL is never empty |
| `TimezoneClient.JsRemainder` | contact-availability-backend/app/lib/abstract-timezone-api.ts:157 | JavaScript's `%` keeps the dividend's sign, so its absolute value is the absolute offset's remainder |
| `TimezoneClient.FormatOffset` | contact-availability-backend/app/lib/abstract-timezone-api.ts:155-160 | the label starts with `GMT`, then `+` iff the offset is ≥ 0 (zero gives `+`), and has a colon before the last two characters |
| `TimezoneClient.OffsetFields` | contact-availability-backend/app/lib/abstract-timezone-api.ts:156-159 | the hours field is the whole hours of the absolute offset: exactly two digits with a leading `0` below ten, otherwise the plain decimal with no leading zero; the minutes field is the remaining minutes in two digits |
| `TimezoneClient.ParseFormatOffset` | contact-availability-backend/app/lib/abstract-timezone-api.ts:155-160 | every label reads back as the offset it was made from |
| `TimezoneClient.OffsetExampleEast` | contact-availability-backend/app/lib/abstract-timezone-api.ts:155-160 | +5.5 hours gives `GMT+05:30` |
| `TimezoneClient.OffsetExampleWest` | contact-availability-backend/app/lib/abstract-timezone-api.ts:155-160 | -5.5 hours gives `GMT-05:30`, the same minutes field as +5.5 |
| `TimezoneClient.OffsetExampleZero` | contact-availability-backend/app/lib/abstract-timezone-api.ts:155-160 | a zero offset gives `GMT+00:00` |
| `Text.NatToString` | contact-availability-backend/app/lib/abstract-timezone-api.ts:159 | a number's decimal rendering is a non-empty digit string, one digit exactly below ten, with no leading zero |
| `Text.ParseNatToString` | contact-availability-backend/app/lib/abstract-timezone-api.ts:159 | reading a number's decimal rendering gives the number back |
| `Text.PadStart` | contact-availability-backend/app/lib/abstract-timezone-api.ts:159 | padding reaches the requested width, keeps the string as its suffix and fills only with the pad character |
| `Text.PadStartZeros` | contact-availability-backend/app/lib/abstract-timezone-api.ts:159 | zero-padding a digit string keeps its value |
| `Text.Join` | contact-availability-backend/app/api/contact-availability/route.ts:47 | `join` keeps the first part as a prefix |
| `Text.JoinLength` | contact-availability-backend/app/api/contact-availability/route.ts:47 | a join ends exactly where its last part ends: the parts' lengths plus one separator between each two |
| `Text.JoinCharacters` | contact-availability-backend/app/api/contact-availability/route.ts:47 | a join keeps every character of every part and adds nothing but separator characters |
| `Text.JoinPartAt` | contact-availability-backend/app/api/contact-availability/route.ts:47 | part `i` appears whole in the join, after the earlier parts each followed by one separator |
| `Text.JoinSepAfter` | contact-availability-backend/app/api/contact-availability/route.ts:47 | the separator appears right after every part but the last |
| `Text.SplitJoin` | contact-availability-backend/app/api/contact-availability/route.ts:47 | splitting a join at a separator no part contains gives back the parts |
| `ContactAvailabilityRoute.Examples` | contact-availability-backend/app/api/contact-availability/route.ts:32 | the examples are the first ten supported names, or all of them when there are at most ten |
| `ContactAvailabilityRoute.UnsupportedCountry` | contact-availability-backend/app/api/contact-availability/route.ts:35 | the message opens with `Unsupported country: "`, the country name as written, and `".` |
| `ContactAvailabilityRoute.UnsupportedCountryLayout` | contact-availability-backend/app/api/contact-availability/route.ts:35 | the message is the opening, then ` Please use a valid country name like: `, then the joined example names, and ends where they end |
| `ContactAvailabilityRoute.UnsupportedCountryName` | contact-availability-backend/app/api/contact-availability/route.ts:32-35 | each of the first ten supported names appears whole in the message, in order, after the lead sentence and the earlier names with their separators |
| `ContactAvailabilityRoute.UnsupportedCountrySeparator` | contact-availability-backend/app/api/contact-availability/route.ts:32-35 | every example name but the last is followed directly by `, ` |
| `ContactAvailabilityRoute.LocationParts` | contact-availability-backend/app/api/contact-availability/route.ts:42-46 | the parts are the city, the state only when given and non-empty, and the country name as written (not its ISO code) |
| `ContactAvailabilityRoute.Location` | contact-availability-backend/app/api/contact-availability/route.ts:42-47 | the location starts with the city, ends with the country name, and its length is that of the parts plus one comma between each two |
| `ContactAvailabilityRoute.LocationRoundTrip` | contact-availability-backend/app/api/contact-availability/route.ts:42-47 | the comma-joined location splits back into city, optional state and country when none contains a comma |
| `ContactAvailabilityRoute.Get` | contact-availability-backend/app/api/contact-availability/route.ts:19-64 | a missing or empty city or country gives a 400; a country the resolver maps to no code or to an empty code gives a 400 naming the supported examples; a failed lookup gives a 500 with its message; otherwise the reply holds exactly the holiday list given to the classifier and the classifier's verdict unchanged |
| `ContactAvailabilityRoute.ValidationComesFirst` | contact-availability-backend/app/api/contact-availability/route.ts:19-26 | a missing parameter is rejected before the resolver, the lookup or the fetch is consulted: the reply does not depend on them |
| `ContactAvailabilityRoute.UnsupportedNamesFirstTen` | contact-availability-backend/app/api/contact-availability/route.ts:32-35 | supported names after the tenth never change the unsupported-country message |
| `ContactAvailabilityRoute.SuccessfulReply` | contact-availability-backend/app/api/contact-availability/route.ts:54-64 | a valid query whose lookup succeeds gets a success whose holidays are sorted and inside the window, with status public holiday iff one of them falls on the contact's day |
| `ContactAvailabilityRoute.PublicHolidayOnlyBeforeUtcMidnight` | contact-availability-backend/app/lib/nager-date-api.ts:105-108 | once the current instant is past the UTC midnight of the contact's local date, the status is never public holiday |

## Left out

- Upstream HTTP calls (`getPublicHolidays`, `getCurrentTime`, `getCurrentTimeByCoordinates`, `getCurrentTimeByIP`, `getCurrentTimeForLocation`): they are I/O. The model takes their results as function parameters returning `Result`.
- Error-message wrapping ("Failed to fetch public holidays: …", "Failed to get current time for …", "Failed to check today's holiday status: …"): an `Err` carries the upstream message unchanged.
- `createAbstractTimezoneAPI` and its environment-variable check: a missing key is one more way for the abstract lookup to return `Err`, which the route turns into a 500.
- The 500 reply for a thrown value that is not an `Error` ("An unexpected error occurred"): in the model every failure carries a message.
- Locale formatting (`formatDateTime`, `formatDate`, `formatTime`, `formatDateTimeSeparated`, `formatTimezoneData`): it depends on the runtime's timezone database. The success body keeps only the timezone abbreviation, not the formatted date and local time.
- Date parsing of the timezone response: the day, weekday and hour are inputs. In the code the weekday and hour come from the server-local `getDay`/`getHours` of the parsed datetime, while the date strings come from the UTC `toISOString`, so they can refer to different days. The model does not reproduce that mismatch.
- `NagerDate.Clock`: the window end is taken as exactly 30 × 24 hours after now. The code's local-time `setDate` can differ by a daylight-saving hour, and its second `new Date()` is a few milliseconds later.
- `NagerDate.IsTodayHoliday`: today's UTC date and the current local year are inputs, not read from a clock.
- `TimezoneClient.FormatOffset`: offsets are whole minutes. For offsets that are not exact binary fractions of an hour, the code's float arithmetic can print non-integer minutes; the model prints the exact minute count.
- The country resolver `getCountryCode`/`getSupportedCountries`: isoToCountryCode.ts is not part of this model. It is a function parameter plus a list of supported names. Its result is an optional string; the endpoint rejects a falsy code, so both an absent and an empty code count as unsupported.
- `getCurrentYearHolidays`: it only supplies the current year to `getPublicHolidays`.
- The pass-through endpoints `api/abstract-timezone/route.ts` and `api/nager-date/route.ts`, the CRM card UI, and the module-level singleton client.
