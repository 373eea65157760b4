# Tide widget: a Dafny model of its data logic

The widget is a single browser script, `app.js`. It loads NOAA's catalog of
tide-prediction stations and lists them in a searchable picker and on a map.
It picks a station near Santa Monica. For a station and a date it fetches a
five-day window of high and low tide predictions, and then shows the day's
extremes, the next tide and a card for each of the five days.

This project models the logic under that page. The browser is supplied as
parameters:
- the two NOAA answers (the station catalog and the predictions);
- the clock ("today" and "now" in milliseconds);
- the distance of each station from Santa Monica.

The modules follow the script's own layers:

- `Common`: optional values, results, and the outcome of `Number(...)` (a
  finite number or not). It also holds `Array.prototype.find`.
- `Text`: the string built-ins the script relies on: `trim`, `toLowerCase`,
  `includes`, `replaceAll` and `replace` with a one-character pattern.
- `Markup`: `escapeHtml`, with a decoder for the five entities it writes.
- `Sorting`: `Array.prototype.sort` with a comparator, as a stable insertion
  sort over a total preorder.
- `Dates`: the proleptic Gregorian calendar behind `Date.UTC`,
  `setUTCDate` and `toISOString`. It also holds `addDaysYmd`,
  `formatDateYmd`, `toIsoUtc`, and the instant `new Date(...)` reads from an
  RFC 3339 date-time.
- `Stations`: `normalizeStation` and the catalog built by `loadStations`.
  The `forEach`/`set` loop into a `Map` is kept as a loop. The module also
  holds the option label, the search filter, the reselection after filtering,
  and `stationLabelById`.
- `Ranking`: `nearestStations` and the choice rule of `selectInitialStation`.
- `Tides`: `fetchTides` and `render`. This covers the request window,
  ingestion of predictions, the active day, highest and lowest, the next
  tide, and the five-day forecast loop of `renderForecast`.
- `Widget`: the page's lasting state as a class `Page`, and the steps of
  `bootstrap` that change it. The state is the `stations` list, the map's
  `stationMarkers`, the picker, the date input, the shortcut list, the
  status line and the loading flag.

Where the code and a reader's expectation differ, the model follows the code:

- The `reduce` calls that find the highest and lowest event use a strict
  comparison. Of equal heights they therefore keep the later event, both in
  `render` and in `renderForecast`.
- The next-tide search runs over all five days of events, not only the
  picked day.
- `Date.UTC` reads a year from 0 to 99 as 1900 to 1999. So `addDaysYmd` moves
  such a date into the twentieth century even when adding no days.
- `addDaysYmd(pickedDate, 4)` in `fetchTides` runs before its `try` block.
  When the date cannot be read, the throw escapes `fetchTides`. The
  `finally` never runs, so the page stays in its loading state with the
  "Fetching" message. The model keeps this as the outcome `Threw`.

## Model

| member | source | states |
|---|---|---|
| Common.FirstMatch | app.js:268-270 | The index found holds an element satisfying the predicate, and no earlier element does. There is none exactly when no element satisfies it. |
| Common.Find | app.js:268-270 | `find` returns the first member of the list that satisfies the predicate: no earlier member does. It returns nothing exactly when no member does. |
| Text.Trim | app.js:46-50 | `trim` cuts only whitespace, from both ends. The result neither starts nor ends with whitespace. |
| Text.TrimEmptyIff | app.js:46-53 | A trimmed text is empty exactly when the text is all whitespace. This is the `!id`/`!name` test. |
| Text.TrimIdempotent | app.js:46-50 | Trimming twice gives the same text as trimming once. |
| Text.TrimOfUnpadded | app.js:46-50 | A text with no whitespace at either end is its own trim. |
| Text.ToLower | app.js:92-98 | Lower-casing keeps the length. Each character becomes its lower-case form. |
| Text.Contains | app.js:99 | `includes` is true exactly when the needle occurs at some position of the text. |
| Text.ReplaceAll | app.js:283 | When the replacement lacks the pattern character, the result has none left. |
| Text.ReplaceAllAppend | app.js:340-344 | Replacing in a concatenation is replacing in each part. |
| Text.ReplaceAllAbsent | app.js:340-344 | A text without the pattern character is left unchanged. |
| Text.ReplaceFirst | app.js:298 | `replace` with a one-character pattern changes only the first occurrence. It leaves a text without the pattern unchanged. |
| Markup.EscapeEach | app.js:338-345 | Escaping character by character leaves no raw `<`, `>`, `"` or `'`. |
| Markup.EscapeHtmlOfChar | app.js:338-345 | On a single character the five passes produce that character's entity, or the character itself. |
| Markup.EscapeHtmlIsPerCharacter | app.js:338-345 | The five `replaceAll` passes, `&` first, are the same as escaping each character on its own. No pass re-encodes an entity that an earlier pass wrote. |
| Markup.EscapeHtml | app.js:338-345 | The output of `escapeHtml` holds no raw `<`, `>`, `"` or `'`, and a text with none of `&<>"'` comes back unchanged. |
| Markup.EscapeHtmlRoundTrip | app.js:338-345 | Decoding the five entities in the output of `escapeHtml` gives back the input text. |
| Sorting.Insert | app.js:77 | Inserting into a sorted list keeps it sorted, and adds exactly the new element. |
| Sorting.SortBy | app.js:77 | The sort returns its input rearranged (the same multiset) in comparator order. |
| Sorting.SortByIsStable | app.js:77 | For every key, the elements that compare level with it leave the sort in their input order. |
| Sorting.SortByKeepsDistinct | app.js:77 | Sorting a list with distinct keys keeps them distinct. |
| Sorting.LevelWithHead | app.js:77 | The first element level with a key is the first element of the list level with it. |
| Sorting.SortByKeepsLevelOrder | app.js:77 | Two elements that compare level leave the sort in the order they had in the input. |
| Dates.NextDay | app.js:289 | The next day is a valid date one day number later. It rolls over month and year ends, leap days included. |
| Dates.PrevDay | app.js:289 | The previous day is a valid date one day number earlier. |
| Dates.AddCivil | app.js:289 | Moving by `n` days gives a valid date whose day number is `n` more. |
| Dates.YearLength | app.js:289 | A leap year has 366 days and any other year 365. |
| Dates.EpochDayMonotone | app.js:289 | A date earlier on the calendar has a smaller day number. |
| Dates.EpochDayInjective | app.js:289 | Two valid dates share a day number exactly when they are the same date. |
| Dates.AddCivilIsUnique | app.js:289 | Moving by `n` days lands on the only valid date whose day number is `n` more. |
| Dates.DigitsRoundTrip | app.js:290 | Printing a digit string's value at the string's width gives the string back. |
| Dates.DigitsValueOfDigits | app.js:290 | Reading back a printed number gives the number. |
| Dates.DigitsLength | app.js:290 | A number below `10^w` is printed in exactly `w` digits, zero-padded. |
| Dates.YearText | app.js:290 | `toISOString` prints a year from 0 to 9999 as four digits that read back as the year. Any other year gets a sign (`-` below zero, `+` above 9999) and at least six digits that read back as its magnitude. |
| Dates.IsoDate | app.js:290 | For a year from 0 to 9999 the printed date is a full `YYYY-MM-DD` date that reads back as the same calendar date. |
| Dates.PrintedFullDate | app.js:290 | The year, month and day fields printed with their dashes form a full date that reads back as the given date. |
| Dates.Split | app.js:287 | `split` always gives at least one part. |
| Dates.SplitAt | app.js:287 | Splitting at a separator gives the text before it, then the parts of the rest. |
| Dates.ParseYmd | app.js:287 | A text without a dash has no date fields. When the fields are read, the year is the decimal number before the first dash. |
| Dates.UtcDate | app.js:288 | `Date.UTC(year, month - 1, day)` names a valid calendar date whose day number is `day - 1` past the first of the month it lands in, so a day outside the month (0 included) carries into the neighbouring months. |
| Dates.UtcMonthStart | app.js:288 | `Date.UTC` lands on day 1 of the month that is `month - 1` months after January of the year, with a year from 0 to 99 read as 1900 to 1999; a month outside 1..12 carries into the year. |
| Dates.UtcTwoDigitYears | app.js:288 | For every month and day, a year from 0 to 99 names the same date as year 1900 plus it. |
| Dates.UtcDateOfValid | app.js:288 | For a valid date with a year of 100 or more, `Date.UTC` names that same date. |
| Dates.AddDaysYmd | app.js:286-291 | `addDaysYmd` returns a date only when its three fields read as numbers. |
| Dates.ParseFullDate | app.js:287 | A `YYYY-MM-DD` date splits into its year, month and day values. |
| Dates.IsoDateOfFullDate | app.js:290 | `toISOString` prints a full date as that same date text. |
| Dates.AddDaysYmdIsDayCount | app.js:286-291 | For a full date (year 100 or more), `addDaysYmd(d, n)` is the printed date `n` days later. It throws exactly when that date is beyond the range of a `Date`. |
| Dates.AddDaysYmdNear | app.js:286-291 | Moving a full date (year 100 or more) by up to a million days never throws. The result is the date that many days later. |
| Dates.AddDaysYmdZero | app.js:286-291 | Adding zero days gives back a full date with a year of 100 or more. |
| Dates.AddDaysYmdCenturyShift | app.js:288 | A two-digit year moves to 19xx: `0050-06-01` plus zero days is `1950-06-01`. |
| Dates.FormatDateYmd | app.js:282-284 | The result of `formatDateYmd` holds no dash. |
| Dates.FormatDateYmdOfFullDate | app.js:282-284 | A full date loses exactly its two dashes. The result is eight digits, `YYYYMMDD`. |
| Dates.DropDashes | app.js:283 | Removing dashes from `y-m-d` joins its fields when they hold no dash. |
| Dates.ToIsoUtc | app.js:297-299 | A time without a space only gets `:00Z` appended. |
| Dates.ToIsoUtcOfNoaa | app.js:297-299 | A NOAA `YYYY-MM-DD HH:MM` time becomes the RFC 3339 (section 5.6) UTC date-time of the same minute, at second 00. |
| Dates.InstantOf | app.js:427 | Of the texts the model reads, `new Date(...)` gives an instant exactly for an RFC 3339 UTC date-time with whole seconds, or for hour 24 at 00:00 (the end of a day). |
| Dates.MidnightInstant | app.js:427 | Hour 00 of a full date is the start of its day: its day number in whole days of milliseconds. |
| Dates.EndOfDayIsNextMidnight | app.js:427 | Hour 24 of a full date is the same instant as midnight of the next date. |
| Dates.InstantOfNoaa | app.js:427 | Every NOAA time converts to a valid instant: the UTC minute it names. |
| Stations.NormalizeStation | app.js:45-57 | An accepted station has a non-empty id and name. |
| Stations.NormalizeStationSpec | app.js:45-57 | A record is rejected exactly when it meets one of these conditions: its trimmed id is empty, its trimmed name is empty, or a coordinate is not finite. Otherwise the station holds the trimmed id, name and state (state defaults to "") and the coordinates. |
| Stations.NormalizeAll | app.js:71 | `map` normalises each record in its place. |
| Stations.Present | app.js:72 | `filter(Boolean)` keeps no more entries than it is given. |
| Stations.PresentEmptyIff | app.js:72 | Nothing survives the filter exactly when every record was rejected. |
| Stations.PresentMembers | app.js:72 | A station survives exactly when it was one of the normalised entries. |
| Stations.AcceptedEmptyIff | app.js:70-72 | No station is accepted exactly when no record normalises. |
| Stations.AcceptedMembers | app.js:70-72 | A station is accepted exactly when some record of the feed normalises to it. |
| Stations.AcceptedWellFormed | app.js:45-57 | Every accepted station is well formed: trimmed, with a non-empty id and name. |
| Stations.LastWithIdAt | app.js:74 | The index found holds the id and no later entry does. There is none exactly when the id is absent. |
| Stations.LastWithId | app.js:74 | The station found carries the id and no later station does, so it is the last one with the id. There is none exactly when no station carries the id. |
| Stations.SetEntry | app.js:74 | `Map.set` maps the id to the new station. The keys stay distinct and cover exactly the entries. A known id keeps its place in the key order; a new id is appended at the end. |
| Stations.Collect | app.js:68-75 | The map built by the `set` calls is empty exactly when no station was set. |
| Stations.CollectKeepsLast | app.js:68-75 | The map holds exactly the ids set. Each id maps to the last station set with it. |
| Stations.FirstWithIdAt | app.js:68-75 | The position found is the first station with the id. There is none exactly when no station has it. |
| Stations.FirstWithIdSnoc | app.js:73-75 | Adding a station at the end keeps every id's first position, and gives a new id its first position there. |
| Stations.CollectKeysInFirstOrder | app.js:68-75 | The map's keys are exactly the ids set, each once, in the order of their first `set`. |
| Stations.PresentStep | app.js:72 | One more normalised entry adds its station, if there is one, at the end. |
| Stations.CollectSnoc | app.js:73-75 | Setting one more station is one more `Map.set` on the map built so far. |
| Stations.SetIfPresent | app.js:72-75 | A kept record is one `Map.set` of its station. A rejected record leaves the map as it was. |
| Stations.CollectStep | app.js:70-75 | One more record is one more `set`, or no change for a rejected record. |
| Stations.Values | app.js:77 | `unique.values()` lists each key's station, in the order the keys were first set. |
| Stations.NameLeTotal | app.js:77 | Any two names are ordered one way or the other. |
| Stations.NameLeTransitive | app.js:77 | The name order is transitive. |
| Stations.NameLeAntisymmetric | app.js:77 | Names that compare level in both directions are equal. |
| Stations.ByNameIsTotalPreorder | app.js:77 | The name comparator is a total preorder, so the sort is well defined. |
| Stations.IndexStations | app.js:68-75 | The loop over the feed yields the same keys and entries as setting each accepted station in turn. |
| Stations.IngestRecord | app.js:71-74 | One turn of the loop sets the record's station when it normalises, and otherwise changes nothing. |
| Stations.LoadStations | app.js:67-83 | `loadStations` (after the fetch) returns the catalog: the deduplicated stations sorted by name, or the error for an empty result. |
| Stations.CatalogEmptyIff | app.js:79-81 | `loadStations` throws exactly when no record of the feed normalises. |
| Stations.CatalogKeepsLastRecord | app.js:68-77 | Every catalog station is well formed, and is the last accepted record carrying its id. |
| Stations.CatalogCoversEveryId | app.js:68-77 | Every id that some record validly carries is in the catalog. |
| Stations.CatalogIdsUnique | app.js:68-77 | No id appears twice in the catalog. |
| Stations.ValuesInFirstOrder | app.js:66-77 | `[...unique.values()]` lists the stations in the order in which their ids were first set. |
| Stations.CatalogOrder | app.js:66-77 | The catalog is sorted by name. Of two stations with the same name, the one whose id first appeared earlier among the accepted records comes first. |
| Stations.OptionLabel | app.js:86-89 | The label is the name, then ", state" only when the state is non-empty, then " (id)". |
| Stations.KeepMatching | app.js:97-100 | The filter keeps exactly the stations that match the query. |
| Stations.KeepMatchingAppend | app.js:97-100 | Filtering a concatenation filters each part, so relative order is kept. |
| Stations.FilterStations | app.js:92-101 | A blank search lists every station in catalog order. Otherwise exactly the stations whose "name state id", lower-cased, contains the trimmed, lower-cased query. |
| Stations.EmptySearchListsAll | app.js:95-96 | The empty search text lists the whole catalog. |
| Stations.SelectedAfterFilter | app.js:105-128 | After refilling, the picker keeps the previous choice if it is still listed. Otherwise it shows the first listed station, or "" for the lone "No stations match" option. |
| Stations.SelectedIsListed | app.js:117-128 | When some station is listed, the picker's value is a listed station's id. |
| Stations.StationLabelById | app.js:301-303 | The label is the name of a station with the id, or the id itself when none has it. |
| Stations.LabelByIdOfListed | app.js:301-303 | In a catalog with distinct ids, a station's id labels it with its own name. |
| Ranking.Attach | app.js:231-235 | Each station gets its own distance, in place. |
| Ranking.ByDistanceIsTotalPreorder | app.js:236 | The distance comparator is a total preorder. |
| Ranking.RankedByDistance | app.js:231-236 | The ranked list is the stations with their distances, rearranged in non-decreasing distance. |
| Ranking.RankedMembers | app.js:231-236 | Every ranked entry is a station with its own distance, and every station is ranked. |
| Ranking.Within | app.js:238 | The radius filter keeps exactly the entries within `maxKm`. |
| Ranking.Take | app.js:238-239 | `slice(0, n)` is the first `min(n, length)` entries. |
| Ranking.WithinNone | app.js:238-239 | When every station is out of range, nothing is kept. |
| Ranking.WithinSortedIsPrefix | app.js:238 | In a list sorted by distance, the entries within the radius are a prefix of it. |
| Ranking.NearestStations | app.js:230-240 | `nearestStations` returns at most `count` entries. |
| Ranking.WithinNonEmptyIff | app.js:238-239 | Some station is in range exactly when the in-range list is non-empty. |
| Ranking.NearestStationsSpec | app.js:230-240 | The result is a prefix of the distance-sorted list, in non-decreasing distance. If some station is in range, every result is in range, and there are as many as `count` allows. Otherwise the result is the `count` nearest overall. It is never empty for a non-empty catalog and `count` ≥ 1. |
| Ranking.NearestIsClosest | app.js:272 | The single nearest station is a catalog station no farther than any other. |
| Ranking.NearestIsFirstClosest | app.js:230-240 | The single nearest station is, of the stations at the least distance, the one listed first, because the sort by distance is stable. |
| Ranking.InitialStation | app.js:267-280 | The first station with id 9410840 is chosen. Failing that, the first whose lower-cased name contains "santa monica". Failing that, the first listed station no farther than any other. The choice is always a catalog station, and there is none only for an empty catalog. |
| Tides.DayKey | app.js:393 | The day key is the first ten characters of `t`, or all of a shorter `t`. |
| Tides.DayKeyIsUtcDate | app.js:393 | For a NOAA time, the day key is a full date, and it is the date of the UTC instant the time names. |
| Tides.Ingest | app.js:388-395 | No more events than predictions come out. Each event's day key is the start of its time. |
| Tides.IngestOne | app.js:388-395 | A prediction becomes its event exactly when its height is finite. |
| Tides.IngestAppend | app.js:388-395 | Ingesting a concatenation ingests each part, so order is kept and only non-finite heights are dropped. |
| Tides.IngestEmptyIff | app.js:388-397 | No event survives exactly when no height is finite. |
| Tides.PrepareRequest | app.js:351-366 | No station is refused first, then no date. A date `addDaysYmd` cannot move by four days throws. Otherwise the request is for the given station. |
| Tides.RequestWindow | app.js:365-366 | For a full date, the request runs from the picked date to the date four days later, both as `YYYYMMDD`. |
| Tides.LoadEvents | app.js:388-399 | The answer yields events exactly when some height is finite. The events are the ingested ones and are never empty. Otherwise it is the "no events" error. |
| Tides.DayEvents | app.js:412 | The day filter keeps exactly the events with that day key. |
| Tides.DayEventsAppend | app.js:412 | Filtering a concatenation filters each part. |
| Tides.ActiveEvents | app.js:412-413 | The picked day's events are active if there are any, otherwise all events. The active list is never empty for a non-empty window. |
| Tides.HighestAt | app.js:418 | The reducer ends at a highest event. Every later event is strictly lower, so ties go to the later event. |
| Tides.LowestAt | app.js:419 | The reducer ends at a lowest event. Every later event is strictly higher, so ties go to the later event. |
| Tides.HighestIsUnique | app.js:418 | The highest reading is the only index that is highest with every later event strictly lower. |
| Tides.LowestIsUnique | app.js:419 | The lowest reading is the only index that is lowest with every later event strictly higher. |
| Tides.Highest | app.js:418 | The highest event is one of the events, and no event is higher. |
| Tides.Lowest | app.js:419 | The lowest event is one of the events, and no event is lower. |
| Tides.TiesGoToTheLaterEvent | app.js:418-419 | With two equal highs and two equal lows, both reducers return the second of each. |
| Tides.IsAfterOfNoaa | app.js:427 | For a NOAA time, an event is after now exactly when the UTC minute it names is after now. No invalid date cuts the comparison short. |
| Tides.FirstAfter | app.js:427 | The index found is the first event strictly after now. There is none exactly when no event is after now. |
| Tides.Upcoming | app.js:424-428 | On today's date the next tide is the first event of the whole window strictly after now, or the first active event when none is. On any other date it is the first active event. |
| Tides.Classify | app.js:293-295 | The label is "High" exactly for type "H", and "Low" exactly for every other type. |
| Tides.CardFor | app.js:502-503 | A card is for the day it was asked for. |
| Tides.CardForSpec | app.js:503-527 | A day without events gets the "No prediction data" card. Any other day gets its event count, and a high and a low taken from that day that bound every event of the day. |
| Tides.ForecastDaysDefined | app.js:502 | When the date four days on exists, so does every date before it. |
| Tides.ForecastDates | app.js:501-502 | There are exactly five forecast days. |
| Tides.ForecastDateAt | app.js:501-502 | Forecast day `i` is `addDaysYmd(picked, i)`. |
| Tides.Forecast | app.js:498-531 | There are exactly five cards. |
| Tides.ForecastCards | app.js:501-503 | Card `i` describes the day `addDaysYmd(picked, i)`. |
| Tides.RenderForecast | app.js:498-531 | The loop draws exactly the five specified cards, in day order. |
| Tides.ForecastCard | app.js:502-529 | One pass of the loop draws card `i` of the forecast. |
| Tides.ForecastSpansRequest | app.js:365-366 | For a full date, the first card is the picked date and the last card is the request's end date. |
| Tides.Render | app.js:411-443 | `render` shows the specified view: label, count, highest, lowest, next tide and its label, timeline and cards. |
| Tides.ActiveExtremes | app.js:412-419 | The active events are never empty. Their highest and lowest are among them and bound all of them. |
| Tides.UpcomingIsAnEvent | app.js:424-428 | The next tide is always one of the window's events. |
| Tides.ShownFacts | app.js:411-443 | A rendered view lists at least one event. Its highest and lowest are listed and bound every listed event. The next tide is an event of the window, with its own label. There are five cards. |
| Tides.RunFetch | app.js:347-409 | The steps of `fetchTides`, in order, reach the specified outcome. |
| Tides.FetchOutcomeFacts | app.js:347-409 | `fetchTides` refuses exactly when the station or the date is missing. It throws exactly for a date it cannot move by four days. It renders exactly when the window is valid and the answer holds a finite height, and then for that station and request, with events and five cards. A failed request or an answer with no usable event empties the page. |
| Widget.RawList | app.js:67 | `??` falls through only on a missing list: a present `stationList`, even an empty one, is taken; otherwise `stations`, otherwise no records. A non-empty result is one of the two lists. |
| Widget.LoadedStations | app.js:597-605 | The stations `bootstrap` ends up with are never empty. |
| Widget.LoadedStationsUsable | app.js:597-605 | Whether from NOAA or the fallback list, the stations have distinct ids and are well formed. |
| Widget.FallbackWellFormed | app.js:10-16 | Every fallback station is well formed. |
| Widget.FallbackIdsDistinct | app.js:10-16 | No two fallback stations share an id. |
| Widget.UnpaddedIsWellFormed | app.js:10-16 | A station with non-empty, unpadded id, name and state is well formed. |
| Widget.MarkersMatchStations | app.js:167-191 | The markers' ids are exactly the stations' ids. With distinct ids, each marker shows its own station. |
| Widget.Page.constructor | app.js:36-43 | The page starts with no stations, markers, options, choice or view, and today's date in the date input. |
| Widget.Page.PopulateStationSelect | app.js:91-129 | The picker lists the filtered stations. The choice is kept when it is still listed, and otherwise falls back as specified. Nothing else changes. |
| Widget.Page.Choose | app.js:278 | Setting the picker's value selects the id when it is listed, and "" otherwise. |
| Widget.Page.RenderStationMarkers | app.js:162-191 | Without a map nothing changes. Otherwise the markers are exactly those set for the stations in turn. |
| Widget.Page.SelectInitialStation | app.js:267-280 | Without a choice the picker is untouched. Otherwise the chosen station's id is selected when the station is listed, and the picker shows no value ("") when it is not. |
| Widget.Page.FetchTides | app.js:347-409 | The outcome is the specified one for the page's stations, choice and date. A refusal only sets a message. A throw leaves the page loading. A failed or empty answer clears the view. A render replaces it and ends loading. |
| Widget.Page.LoadCatalog | app.js:597-605 | The stations are the loaded catalog, or the fallback list exactly when the feed failed or held no valid station. |
| Widget.Page.Arrange | app.js:607-610 | Every station is listed, and markers are placed when the map is up. The shortcuts are the 9 stations nearest Santa Monica within 180 km. The initial station is selected. |
| Widget.Page.Start | app.js:597-610 | After loading and arranging, the stations are the loaded ones and the initial station is selected. |
| Widget.Page.Bootstrap | app.js:590-612 | `bootstrap` loads and arranges as above, then runs `fetchTides` for the initial station and the picked date, with the outcome and page state that call specifies. |

## Left out

- `haversineKm` (app.js:217-228) is floating-point trigonometry. A station's distance from the reference point is a parameter, one real per station.
- The network: `fetch`, `response.ok`, `payload.error` and `response.json()`. Each NOAA answer is a parameter. `None` stands for a failed request or an error answer. The request URL's constant parameters are not modelled; only the station and the two dates are kept.
- The clock: `new Date()` in `initDateControl` and `render` becomes the parameters `today` and `nowMs`.
- `async`/`await` interleaving. `bootstrap` is modelled as running its steps in order. User events that arrive while a request is pending are not modelled.
- DOM and Leaflet work: `initMap`, `initEventHandlers`, `syncMapSelection`, `markerStyle`, popups, marker and button click handlers, `renderTimeline`, `renderCurve` (including its pixel scaling) and `renderEmpty`. Markers are stood for by the station they show, and buttons by the ranked station.
- Formatting: `toLocalPretty`, `toFriendlyDay`, `toFixed`, the miles conversion (app.js:250), the texts of `setStatus` and `updateStationCountMessage`. The status line is kept only as Idle, Fetching, Fresh or Failed with a reason.
- `setLoading`'s button state beyond the loading flag itself.
- Stations.NameLe: `localeCompare` is modelled as lexicographic order on characters, not the locale's collation.
- Text.ToLower: lower-cases ASCII letters only. Other scripts' case mappings are not modelled.
- Stations.NormalizeStation: JavaScript coercion is not modelled. Each record arrives with its fields already read by `String(...)` or `Number(...)`, and `Number` yields a finite value or not. A missing field is `undefined`. A `null` field is not represented: as the last of a `??` chain for a coordinate, `Number(null)` is 0, so such a record is accepted with that coordinate 0, where the model would reject it.
- Dates.ParseYmd: a date field that is not a run of decimal digits is treated as unreadable. `Number` quirks such as `Number("") = 0` are not modelled. The date input only ever holds `YYYY-MM-DD` or "".
- Dates.InstantOf: only the `YYYY-MM-DDTHH:mm:ssZ` form is read, with hours 00 to 23 and hour 24 only at 00:00. Date-only texts, fractional seconds, other offsets and the engine's own fallback formats count as invalid here, although `new Date(...)` accepts some of them. `toIsoUtc` yields this form from every NOAA time (Dates.InstantOfNoaa).
- Ranking.Take: `count` is a natural number. `slice(0, n)` with a negative `n` is not modelled, and no caller uses one.
- Tides.Render: `render` reaches only the first branch of `if (upcoming)`, because the active list is never empty. The "No upcoming tides" branch is therefore not modelled.
- Tides.RenderForecast: each card is computed by one function instead of the `continue` branch. The cards it produces are the same.
