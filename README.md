# dino-reader, modelled in Dafny

dino-reader reads the tables of a DINO public-transport timetable export.
This project models the part of it that turns those rows into records:

- `index.js`. `parseCalendar` turns a service restriction's date range into
  one epoch-seconds value per day. `readRestrictions` and `readRoutes` build
  dictionaries keyed by trimmed ids, where a later row overwrites an earlier
  one. `readRouteStops` appends a stop to each named route and fails on an
  unknown route id. `createReader` chains the three readers.
- `merge-stations.js`. `mergeStations` has two passes and a final step:
  - a station pass, which refuses a second, different record under the same
    station id;
  - a stop pass, which adds each stop to its station once and refuses an
    unknown station id;
  - a final step, which sets every station's location to the centroid of its
    stops' locations.

The model has four modules:

- `Common` (common.dfy) holds the error outcomes of a pass and `Fold`. `Fold`
  is a pass over rows that ends at the first failing step. It also models
  JavaScript's `trim`, `parseInt` and the numeric coercion of a field.
- `Calendar` (calendar.dfy) models civil dates, the day-by-day walk of
  `parseCalendar`, and `parseCalendar` itself as a loop.
- `Schedule` (schedule.dfy) models the three readers of `index.js` and
  `createReader`.
- `Stations` (stations.dfy) models `mergeStations`. The dictionary it fills
  lives in the class `StationMerger`, whose methods update it one row at a
  time.

In `Stations` and in `readRouteStops`, each per-row operation is proved
against a pure step function, and each pass against the `Fold` of that step.
`readRestrictions` and `readRoutes` cannot fail, so their loops are proved
equal to `Table`. `Table` is the dictionary built by storing each row's value
under its key, where a later row overwrites an earlier one. The lemmas state
what the steps, the passes and the tables guarantee.

The Node streams become sequences of rows. A row handler's `cb(err)` becomes
an `Err` that ends the pass. The time zone is a parameter `epochOf`, which
maps a day number to the epoch seconds of that day's midnight.
`@turf/centroid` is a parameter `centroid`.

The model follows the code as it stands, which does less than a full
timetable reader might be expected to:

- `parseCalendar` computes a bit index for every day but never reads the
  decoded bit field. It emits every day in `[from, until)` as a plain epoch
  value, with no weekday attached.
- A route stop's distance is the row's own `LENGTH`, not a running sum.
- Weekday masks, travel-time templates and the trip expander are not in the
  code.
- `createReader` reports only errors, never a result.

## Model

| member | source | states |
|---|---|---|
| Common.MessageInjective | merge-stations.js:54-64 | Two errors with the same message text are the same error: the text names both the kind of error and the offending id |
| Common.FoldAborts | index.js:77-80 | Once a row's step has failed, the outcome of the pass is that failure, whatever the later rows hold |
| Common.FoldFailsAtOneRow | index.js:90-98 | A failed pass failed at one row: every earlier row succeeded, and the error of the pass is that row's error |
| Common.TrimSpec | index.js:28 | `trim` yields a piece of the string with only white space around it in the string, and the piece neither starts nor ends with white space |
| Common.TrimIdempotent | index.js:28 | Trimming a trimmed field changes nothing |
| Common.ParseIntDecimal | merge-stations.js:44-49 | `parseInt` reads back the decimal rendering of every integer, also when text that does not continue the number follows it: any non-digit, and also `x` or `X` except after a lone 0, where it would start a hexadecimal prefix |
| Common.ParseIntLeadingSpace | merge-stations.js:44-49 | White space in front of an untrimmed field does not change what `parseInt` reads, so a padded `FARE_ZONE`, `LINE_CONSEC_NR` or `LENGTH` reads like the bare one |
| Common.ParseIntNegative | merge-stations.js:44-49 | A minus sign before a number negates what the digits part reads |
| Common.ParseIntNoDigit | merge-stations.js:44-49 | A field without any decimal digit, a blank one included, parses to NaN |
| Common.ToCoordinateDecimal | merge-stations.js:76-77 | A coordinate field holding the decimal rendering of an integer yields that integer |
| Common.ToCoordinatePadded | merge-stations.js:76-77 | A coordinate field holding the decimal rendering of an integer with white space on either side yields that integer |
| Common.ToCoordinateBlank | merge-stations.js:76-77 | A blank coordinate field yields 0, not NaN |
| Calendar.NextDay | index.js:19 | `d.plus({days: 1})` is a valid date whose day number is one more |
| Calendar.YearLength | index.js:19 | A year has 366 days exactly when it is a leap year |
| Calendar.DaysBetween | index.js:16 | The number of days left is positive exactly when `d < until`, which is false when either date is invalid |
| Calendar.BitIndex | index.js:17 | Within the start month, the index of a day is in 1..31; in general it lies in the 32-slot block of its month |
| Calendar.BitIndexInjective | index.js:17 | Two different (month, day) pairs never get the same bit index |
| Calendar.CalendarDays | index.js:13-22 | The output has one value per day in `[from, until)`, and value k is the epoch of `from` plus k days |
| Calendar.CalendarDaysEmpty | index.js:16 | When `until` is not after `from`, nothing is emitted |
| Calendar.CalendarDaysIncreasing | index.js:16-20 | With a time zone whose midnights increase, the output is strictly increasing |
| Calendar.ParseCalendar | index.js:9-23 | The loop emits exactly the calendar days of `[from, until)`, and the `days` bit field does not influence the result |
| Schedule.TableStep | index.js:28-37 | Storing a row sets its key to its value and leaves every other key as it was |
| Schedule.TableKeys | index.js:28-29 | The keys of a dictionary built from rows are exactly the keys of the rows |
| Schedule.TableLastWins | index.js:28-29 | A key holds the value of the last row with that key |
| Schedule.TableValues | index.js:28-29 | Every stored value was built from some row with that key |
| Schedule.RestrictionsOfLastWins | index.js:27-38 | Each restriction id holds the id, the trimmed name and the calendar days of the last row with that id |
| Schedule.ReadRestrictions | index.js:25-49 | `readRestrictions` yields the dictionary of its rows and never fails |
| Schedule.RoutesOfShape | index.js:53-61 | The route ids are exactly the composed `LINE_NR-STR_LINE_VAR` ids of the rows; each route carries its own id and no stops, and its name comes from the last row with that id |
| Schedule.ReadRoutes | index.js:51-74 | `readRoutes` yields the dictionary of its rows and never fails |
| Schedule.WithRouteStopSpec | index.js:77-87 | A route stop row fails exactly on an unknown route id, with "unknown id"; otherwise only the named route changes, by one stop at the end |
| Schedule.AttachStopsOk | index.js:76-100 | `readRouteStops` succeeds exactly when every row names a known route, and then keeps the same route ids |
| Schedule.AppendRouteStopsPass | index.js:76-100 | After a successful pass that appends each row's stop to the route the row names, each route holds its old stops, then its own rows' stops in row order |
| Schedule.AttachStopsAppends | index.js:81-86 | After a successful pass, each route is the old one with the stops of its own rows appended in row order |
| Schedule.FirstUnknownRouteFails | index.js:78-80 | The first row that names an unknown route decides the error, whatever follows |
| Schedule.ReadRouteStops | index.js:76-100 | The loop yields the routes with the rows' stops appended, or the first error |
| Schedule.CreateReader | index.js:102-121 | The reader never reports completion; it fails exactly when the route stop pass fails, with that error |
| Stations.KeepZonesAppend | merge-stations.js:50 | The filter keeps the order of the zones: filtering a concatenation concatenates the filtered parts |
| Stations.KeepZonesSpec | merge-stations.js:50 | The filter keeps exactly the parsed zones that are numbers other than -1 |
| Stations.UniqSpec | merge-stations.js:43 | `uniq` keeps every value and leaves no value twice |
| Stations.UniqOrder | merge-stations.js:43 | `uniq` lists the values in the order of their first occurrences |
| Stations.FareZonesSpec | merge-stations.js:43-50 | A station's fare zones contain no -1 and no zone twice, and they are exactly the valid values among the six FARE_ZONE fields |
| Stations.WithStationSpec | merge-stations.js:54-57 | A station row fails exactly when a different record is stored under its id, with "non-unique station ID"; otherwise the id holds the new record, with null coordinates and no stops, and no other key changes |
| Stations.WithStationIdempotent | merge-stations.js:54-57 | Writing the record already stored changes nothing, so a repeated row is harmless |
| Stations.UniqueInsertPass | merge-stations.js:54-57 | A pass that refuses a second, different value under a key succeeds exactly when the rows sharing a key agree, and then it holds each row's value under the row's key and no other key |
| Stations.StationsOfSpec | merge-stations.js:25-59 | The station pass succeeds exactly when rows with the same id build the same record, and then each id holds that record |
| Stations.WithStopSpec | merge-stations.js:61-85 | A stop row fails exactly on an unknown station id, with "unknown station ID"; otherwise only that station's stops may change, the stop ends up in the list once, and an equal stop already there leaves everything unchanged |
| Stations.WithStopIdempotent | merge-stations.js:81-83 | Writing the same stop row twice has the effect of writing it once |
| Stations.AppendPass | merge-stations.js:61-85 | A pass that appends stops to known stations succeeds exactly when every row names a known station. Then no station is added, all other fields are kept, the old stops stay in front, no stop occurs twice, and a station's stops are its old ones plus those of its rows |
| Stations.AppendPassInOrder | merge-stations.js:81-83 | After a successful append pass, each station's stops are `uniq` of its old stops followed by its rows' stops in row order: a new stop goes to the back, one equal to a stop already there is dropped |
| Stations.StopsOfSpec | merge-stations.js:61-85 | The stop pass succeeds exactly when every row names a known station. Its result has the shape above, and each station's stop list is exactly its old stops followed by the new stops of its rows, in row order |
| Stations.FirstUnknownStationFails | merge-stations.js:62-65 | The first stop row that names an unknown station decides the error of the stop pass, "unknown station ID" with that id, whatever follows |
| Stations.StopLocations | merge-stations.js:97 | The locations handed to the centroid are those of the station's stops, in order |
| Stations.MergeSpec | merge-stations.js:22-114 | A successful merge has one station per station id in the rows and no stop twice in a station. Each station is located at the centroid of its own stops' locations |
| Stations.StationMerger.constructor | merge-stations.js:23 | The dictionary starts empty |
| Stations.StationMerger.WriteStation | merge-stations.js:25-59 | `writeStation` updates the dictionary in place as the station step prescribes. On error it reports that error and leaves the dictionary as it was |
| Stations.StationMerger.WriteStop | merge-stations.js:61-85 | `writeStop` updates the dictionary in place as the stop step prescribes. On error it reports that error and leaves the dictionary as it was |
| Stations.StationMerger.WriteStations | merge-stations.js:106-113 | Piping the station rows into `writeStation` leaves the dictionary the station pass yields, or stops at its first error |
| Stations.StationMerger.WriteStops | merge-stations.js:87-103 | Piping the stop rows into `writeStop` leaves the dictionary the stop pass yields, or stops at its first error |
| Stations.StationMerger.AssignLocations | merge-stations.js:95-99 | The final loop sets every station's location from its own stops, and changes nothing else |
| Stations.MergeStations | merge-stations.js:22-114 | `mergeStations` yields the station pass, then the stop pass, then the locations; the first error ends it and is its outcome |

## Left out

- Node streams, `pipe`, `Writable` and the `readFile` callback: each pass
  takes its rows as a sequence. `read-csv.js` and `example.js` are not part
  of this model.
- Read errors of the source streams. `pipe` returns the `Writable`, so the
  `error` handlers only ever see errors raised by the row handlers.
- The error handler of `readRoutes` calls `out.detroy`, a misspelling. It
  would throw, but only on a stream error, which is not modelled.
- luxon's ISO date parsing. The dates arrive as (year, month, day) triples,
  and an impossible triple stands for an invalid `DateTime`.
- Time zones and daylight saving time. `epochOf` is a parameter.
- The `| 0` truncation of epoch seconds to 32 bits. `epochOf` is taken to
  return the value already truncated.
- The hexadecimal `Bitfield` decoding in `parseCalendar`. Its result is never
  read.
- Calendar.BitIndex: indices repeat across a year boundary. In a later year
  `d.month - startMonth` counts from the same month numbers again, so 1 March
  of the next year gets the same index as 1 March of the start year.
  `BitIndexInjective` is therefore about (month, day) pairs, not about dates.
  The value is computed as in the source, which never uses it.
- `@turf/centroid` and `computeCentroid`, which involve floating point.
  `centroid` is a parameter.
- Common.ToCoordinate: does not model the division by 1000000, fractions,
  exponents, hexadecimal or `Infinity` in `Number(s)`. It keeps the signed
  integer of a field of decimal digits and yields NaN for anything else.
  Two fields such as "1.5" and "2.5" therefore both yield NaN, so two stops
  that differ only in them are one stop to the model and two to the source.
- `parseInt` is modelled for optional leading white space, an optional sign,
  a `0x` prefix and decimal or hexadecimal digits. Very long digit runs that
  lose precision as doubles are not modelled, and `-0` is read as 0.
- Objects shared by reference are modelled by value. These are the route
  objects that `readRouteStops` mutates and the station objects in the
  dictionary.
- The `type` fields of the records are not modelled. They are constant
  tags.
- The `mergeStations` call in `createReader` is commented out, and its
  success path is a `// todo`. The model keeps both as written: there is no
  merge there and no completion.
