# Pickup information processor — a Dafny model

The program takes a free-text list of passengers to be picked up, one per line,
written as `n - Name - Location - time (remark)`. It builds a manifest per vehicle in four steps:

1. **Parse.** Each line is parsed into a customer. The location is normalised (whitespace removed, lowercased). The time is cleaned: remarks removed, stripped and lowercased. A missing location becomes `''`. A missing time becomes the default time.
2. **Group.** Customers are grouped by (time, location) in the order the keys are first met. Each group becomes a one-row table holding:
   - the names joined by `"; "`;
   - the time, read in the 12-hour format `%I:%M%p` and written back as `hh:mmam`, or `NaT` when the format rejects it;
   - the capitalised location;
   - the number of people.
3. **Merge.** For each group, an operator types a car plate and a mobile number. Groups given both are merged per vehicle. The first group starts the vehicle's manifest. Each later group:
   - appends a `Location: names` line;
   - appends a `time at Location` stop;
   - adds its count;
   - replaces the pickup time when its own is earlier.
4. **Display.** Each merged manifest is shown with every `Location: names` line annotated with its number of names, and with the stops sorted by time.

Modules, one per stage:

- `Wrappers`: Option and Result.
- `Text`: Python's `strip`, `split`, `join` and `lower`, with the facts relating them.
- `Location`: `normalize_location` and `capitalize`.
- `Clock`: `%I:%M%p` reading and writing.
- `EntryParser`: `parse_input`.
- `Ordered`: insertion-ordered dicts.
- `Grouping`: `group_by_pickup`.
- `GroupRecords`: `create_dataframes`, time canonicalisation, `process_pickup_info`.
- `Vehicle`: the plate and mobile parse.
- `Merge`: the merge loop.
- `ManifestFormat`: the display of a merged manifest.
- `Pipeline`: the stages put together.

Loops that build a result become methods proved against a specification function:

- `ParseInput`;
- `GroupByPickup`;
- `CreateRecords`;
- `MergeByVehicle`;
- `FormatPersons`.

The model follows the code as written, including these points where it behaves otherwise than one might expect of such a tool:

- Groups are keyed by the cleaned time text, not by the canonical time. `7:40am` and `07:40am` are two groups.
- A line without a name (no `-`) makes `parts[1]` raise, so the whole parse fails. The line is not dropped.
- A time the format rejects stays in its group as `NaT` and shows as `nan`. It is not put in a separate bucket.
- No vehicle capacity is applied. Whole groups are merged per (plate, mobile).
- Keys carry no date.
- `capitalize` lowercases the rest of the location. Locations are already lowercase, so this changes nothing.
- The merged pickup time is replaced only by an earlier time. A vehicle whose first group is `NaT` keeps `NaT`, rather than getting the minimum of its itinerary.
- Stops are sorted by time only when every stop has a time.

## Model

| member | source | states |
|---|---|---|
| Text.Strip | main.py:13 | `strip()` leaves no whitespace at either end and never lengthens the text |
| Text.StripSlice | main.py:16 | `strip()` keeps a contiguous slice of the text, with only whitespace cut off before and after it |
| Text.IndexOf | main.py:138 | the position of the first `:`, which `split(':', 1)` cuts at; none exactly when there is no `:` |
| Text.SplitJoin | main.py:144 | `split(sep)` gives back parts joined by `sep` when no part lets `sep` occur across a boundary |
| Text.SplitJoinChar | main.py:135 | `split('\n')` gives back lines joined by `'\n'` when none contains a newline |
| Text.SplitCharCount | main.py:139 | `len(names.split(';'))` is one more than the number of `;` in `names` |
| Location.NormalizeLocation | main.py:7-8 | a normalised location has no whitespace and no capitals, and is no longer than the input |
| Location.NormalizeAppend | main.py:7-8 | normalisation works per character: whitespace disappears and any other character is lowercased |
| Location.NormalizeIdempotent | main.py:7-8 | normalising a normalised location changes nothing |
| Location.Capitalize | main.py:39 | `capitalize()` keeps the length and the lowercased text, leaves no lowercase first letter and no capitals after it |
| Location.CapitalizeNormalized | main.py:39 | on a key location only the first letter changes; lowercasing the display gives the key back; the display has no whitespace |
| Location.CapitalizeInjective | main.py:39 | two different key locations never display the same |
| Clock.ParseTime | main.py:51 | whatever `%I:%M%p` accepts is a valid 12-hour reading (hour 1-12, minute below 60) |
| Clock.ParseTimeExact | main.py:51 | a string is accepted as time `t` exactly when it spells `t`: hour of one or two digits, colon, minute of one or two digits, `am`/`pm` in any case |
| Clock.MeridiemExact | main.py:51 | `%p` accepts exactly `am`/`pm` in any mix of case |
| Clock.HourExact | main.py:51 | `%I` accepts an hour exactly in its two-digit or (below ten) one-digit spelling |
| Clock.MinuteExact | main.py:51 | `%M` accepts a minute exactly in its two-digit or (below ten) one-digit spelling |
| Clock.Render | main.py:52 | `strftime('%I:%M%p').lower()` is seven characters with the colon third, no capitals and no whitespace |
| Clock.ParseRender | main.py:51-52 | reading a written time gives the time back |
| Clock.ParseTimeText | main.py:51-52 | the canonical cell reads back as itself; `nan` reads as `NaT` |
| Clock.TimeText | main.py:52 | a cell shows `nan` exactly for `NaT` (or an invalid reading), and otherwise seven characters with the colon third |
| Clock.CanonicalIdempotent | main.py:51-52 | canonicalising a canonical time cell changes nothing, `nan` included |
| Clock.TimeTextPlain | main.py:117 | a time cell is one word without commas, so it cannot break the `", "`-joined itinerary |
| Clock.MinuteOfDayInjective | main.py:119 | distinct valid readings are distinct moments of the day, so the comparison is a strict order |
| EntryParser.SplitFields | main.py:16 | the regular-expression split gives at least one field, and no field contains `-` |
| EntryParser.SplitFieldsStripsPieces | main.py:16 | on a stripped line, the split at `\s*-\s*` equals the stripped pieces between the `-` characters |
| EntryParser.RemoveRemarks | main.py:20 | removing remarks never lengthens the text, and text without `(` is left as it is |
| EntryParser.RemoveRemarksKeepsPrefix | main.py:20 | the text before the first `(` is kept, and removal goes on after it |
| EntryParser.RemoveRemarksFirst | main.py:20 | the first remark runs from the first `(` to the nearest `)` on its line (non-greedy); it is dropped and the text on both sides of it is kept |
| EntryParser.RemoveRemarksUnclosed | main.py:20 | a `(` with no `)` before the end of its line is not a remark and is kept |
| EntryParser.RemoveRemarksComplete | main.py:20 | after removing `(…)` remarks, no `(` is followed by a `)` on the same line, including remarks that earlier removals expose |
| EntryParser.RemoveRemarksOfClean | main.py:20 | text without remarks is left unchanged |
| EntryParser.CleanTime | main.py:20 | a cleaned time has no remark, no surrounding whitespace and no capitals; a time without `(` is only stripped and lowercased |
| EntryParser.CleanTimeDropsFirstRemark | main.py:20 | cleaning a time is cleaning it with its first remark (up to the nearest `)`) cut out and the text around it kept |
| EntryParser.CleanTimeIdempotent | main.py:20 | cleaning a cleaned time changes nothing |
| EntryParser.NormalizeIgnoresSurroundingSpace | main.py:16-18 | stripping the location field first makes no difference to its normalised form |
| EntryParser.PersonKeepsNewlineFree | main.py:16-17 | the person field of a one-line entry contains no line break |
| EntryParser.ParseLine | main.py:15-21 | a parsed customer's location has no whitespace and no capitals, its time is trimmed, lowercase and free of remarks, and its name has no `-` |
| EntryParser.ParseLineFailsWithoutDash | main.py:16-17 | a line fails to parse exactly when it has no `-`, since `parts[1]` then does not exist |
| EntryParser.ParseLineFields | main.py:15-21 | a line yields a customer exactly when it has a second `-`-field. The person is field 2, stripped. The location is field 3 normalised, or `''`. The time is field 4, or the default time, cleaned |
| EntryParser.ParseLineShape | main.py:15-21 | a parsed customer has a normalised location, a trimmed time without capitals, and a trimmed name without `-` or line breaks |
| EntryParser.Lines | main.py:13 | the stripped input splits into at least one line, none containing a newline |
| EntryParser.CollectSpec | main.py:15-22 | the parse succeeds exactly when every line yields a customer, giving them in line order; otherwise it reports the first failing line |
| EntryParser.CollectStops | main.py:15-22 | the first failing line ends the parse; lines after it do not change the outcome |
| EntryParser.ParseInput | main.py:12-22 | the parsing loop returns the customers of all lines in order, or the error of the first line without a name |
| EntryParser.ParsedCustomersShape | main.py:12-22 | a successful parse gives one well-formed customer per input line |
| Ordered.FirstSeenHas | main.py:28-29 | the dict's keys are exactly the keys that occur |
| Ordered.FirstSeenSnoc | main.py:28-29 | scanning one more item adds its key at the end exactly when it is new |
| Ordered.FirstSeenDistinct | main.py:28-29 | no key is listed twice |
| Ordered.FirstSeenOrder | main.py:24-31 | keys are listed in the order of their first occurrence |
| Ordered.WeightPartition | main.py:24-31 | grouping by key neither loses nor duplicates weight: the per-key totals add up to the whole |
| Grouping.GroupMapMembers | main.py:24-31 | the grouped dict holds exactly the listed keys, each mapped to the persons with that key in input order |
| Grouping.KeysStep | main.py:26-29 | one more customer appends its key to the key list only when the key is new |
| Grouping.GroupsStep | main.py:26-30 | one more customer appends its person to the list of its key, or starts that list |
| Grouping.GroupByPickup | main.py:24-31 | the grouping loop returns the keys in first-seen order and, per key, the persons with that key |
| Grouping.GroupSizesAddUp | main.py:24-31 | the group sizes add up to the number of customers |
| Grouping.MembersExact | main.py:24-31 | a name is in a group exactly when some customer with that group's key has that name |
| Grouping.ListedIffMembers | main.py:24-31 | a key is listed exactly when its group is non-empty |
| GroupRecords.MakeRecord | main.py:36-41 | a group's row counts its names, and its location lowercases back to the key's location |
| GroupRecords.RecordsOf | main.py:33-44 | one row per key in key order, each built from that key's own group |
| GroupRecords.CreateRecords | main.py:33-52 | the table-building and canonicalisation loops give the rows of the groups in dict order |
| GroupRecords.ProcessPickupInfo | main.py:11-54 | `process_pickup_info` returns the rows of the parsed customers' groups, or the first line's parse error |
| GroupRecords.CountsAddUp | main.py:40 | the `Number of People` cells add up to the number of customers |
| GroupRecords.EveryLineCounted | main.py:11-54 | after a successful run, the counts add up to the number of input lines |
| GroupRecords.RecordRoundTrip | main.py:36-52 | a row keeps its group. Splitting the names on `"; "` gives them back and the count is their number. Lowercasing the location gives the key's location. The time cell reads back as the row's time |
| GroupRecords.TimeCellCanonical | main.py:50-52 | the time cell is `nan` exactly for `NaT`; otherwise it is seven lowercase characters with the colon third |
| GroupRecords.RecordsNonEmpty | main.py:33-44 | every row counts at least one person |
| Vehicle.ParseCarPlateAndMobile | main.py:57-61 | the helper's plate and mobile are stripped one-line texts; `ParseOneLine` and `ParseFirstTwoLines` pin their values for every text |
| Vehicle.ReadVehicle | main.py:103-105 | the merge loop's plate and mobile are stripped one-line texts; `ReadOneLine` and `ReadFirstTwoLines` pin their values for every text |
| Vehicle.ParseIsReadOfStripped | main.py:57-61 | the helper's parse gives the same vehicle as the inline parse applied to the stripped text |
| Vehicle.ReadOneLine | main.py:103-105 | a one-line text gives that line, stripped, as the plate and an empty mobile |
| Vehicle.ReadFirstTwoLines | main.py:103-105 | a text with at least one line break (`p`, a newline, `m`, then nothing or a newline and more) gives `p`, stripped, as the plate and `m`, stripped, as the mobile, whatever whitespace surrounds them; later lines are ignored |
| Vehicle.ParseOneLine | main.py:57-61 | the helper reads whitespace (blank lines included) followed by a last line `p` as the plate `p`, stripped, and an empty mobile |
| Vehicle.ParseFirstTwoLines | main.py:57-61 | the helper skips leading blank lines, then reads the first non-blank line, stripped, as the plate and the next line, stripped, as the mobile; later lines are ignored |
| Vehicle.VehicleRoundTrip | main.py:103-105 | writing a plate and a mobile on two lines reads them back, with the inline parse and (given a plate) the helper |
| Vehicle.ReadAgreesWithParse | main.py:57-61 | the two parses agree on every text that does not start with whitespace |
| Vehicle.LeadingBlankLine | main.py:103-105 | with a blank first line the helper finds the plate and mobile, but the inline parse reads no plate, so the group is not merged |
| Merge.AssignedVehiclesHas | main.py:107 | a vehicle takes part in the merge exactly when it has a plate and a mobile and some group names it |
| Merge.ServedNonEmpty | main.py:113-124 | a vehicle serves some group exactly when some group names it |
| Merge.ServedFrom | main.py:113-124 | a vehicle serves only groups from the group list, and only groups whose text names it |
| Merge.Start | main.py:121-124 | a vehicle's first group gives the new manifest its own count and its own pickup time |
| Merge.Extend | main.py:114-120 | a later group adds its count, and the pickup time becomes the earlier of the two: one of them, with neither strictly earlier; the manifest's own time is replaced only by a strictly earlier one, so it is kept on a tie or when either is `NaT` |
| Merge.MergeMap | main.py:107-124 | only vehicles with both a plate and a mobile get a manifest |
| Merge.MergeMapDomain | main.py:107-124 | the merged dict holds exactly the vehicles with plate and mobile that some group names |
| Merge.MergeMapValue | main.py:113-124 | each merged manifest is the fold, in group order, of the groups its vehicle serves |
| Merge.MergeMapServed | main.py:107-124 | both of the above, for every vehicle |
| Merge.VehiclesStep | main.py:113-124 | one more group lists its vehicle at the end exactly when the vehicle is assigned and new |
| Merge.MergeStep | main.py:113-124 | one more assigned group extends its vehicle's manifest, or starts it when the vehicle is new |
| Merge.MergeByVehicle | main.py:95-124 | the merge loop returns the vehicles in first-assignment order and their manifests; the dict's keys are exactly the listed vehicles |
| Merge.BuildCount | main.py:118 | a manifest counts the people of every group it serves |
| Merge.MergedCountUpdate | main.py:118 | replacing one listed vehicle's manifest changes the total by the difference of the counts |
| Merge.MergedCountFresh | main.py:124 | adding a manifest for an unlisted vehicle does not change the listed total |
| Merge.MergedCountStep | main.py:113-124 | one assigned group raises the people on the merged manifests by its count, whether its vehicle is new or not |
| Merge.MergedListed | main.py:113-124 | every listed vehicle has a manifest |
| Merge.MergedTotal | main.py:107-124 | merging loses and duplicates no one: the merged counts add up to the people of the assigned groups |
| Merge.AllAssigned | main.py:107 | when every group has a plate and a mobile, every group takes part |
| Merge.BuildPersons | main.py:116 | a manifest's persons text is its groups' `Location: names` lines joined by newlines |
| Merge.BuildItinerary | main.py:117 | a manifest's itinerary is its groups' `time at Location` stops joined by `", "` |
| Merge.StopSeparable | main.py:117 | a stop of a normalised key contains no `", "`, so it cannot break the joined itinerary |
| Merge.PersonsLineNewlineFree | main.py:116 | a persons line of a plain group contains no line break |
| Merge.BuildSplits | main.py:135 | splitting a manifest's persons on `'\n'` and its itinerary on `", "` gives back the groups' lines and stops |
| Merge.EarlierTransitive | main.py:119 | the time comparison is transitive |
| Merge.BuildTimeOccurs | main.py:119-120 | the merged time is one of the served groups' times. It stays `NaT` if the first group's time is `NaT`, and is a time otherwise |
| Merge.BuildTimeEarliest | main.py:119-120 | no served group is picked up earlier than the merged time |
| ManifestFormat.NatToString | main.py:140 | `str(n)` is a non-empty run of decimal digits with value `n` and no leading zero |
| ManifestFormat.GatherSpec | main.py:137-140 | the annotation loop succeeds exactly when every line has a colon, giving the lines in order; otherwise it stops at the first line without one |
| ManifestFormat.GatherStops | main.py:137-138 | a line without a colon ends the formatting with its index, whatever follows |
| ManifestFormat.FormatLine | main.py:138-140 | a line is annotated exactly when it has a colon, since `split(':', 1)` otherwise does not unpack into two |
| ManifestFormat.FormatPersons | main.py:134-141 | the formatting loop returns the annotated lines joined by newlines, or the error of the first line without a colon |
| ManifestFormat.FormattedPersonsFails | main.py:135-138 | formatting fails exactly when some line lacks a colon, and then it names the first such line |
| ManifestFormat.FormatLineOf | main.py:138-140 | a line `loc:names` without a colon in `loc` is shown as `loc: names.strip() (k people)`, where `k` is one more than the number of `;` |
| ManifestFormat.AnnotateTidy | main.py:138-140 | a tidy group's persons line is annotated with the group's own count |
| ManifestFormat.FormatMergedPersons | main.py:134-141 | formatting a merged manifest of tidy groups never fails and shows one annotated line per group |
| ManifestFormat.Insert | main.py:145 | one insertion step adds the new stop and loses none |
| ManifestFormat.SortBy | main.py:145 | `sorted` returns a permutation of the stops |
| ManifestFormat.InsertChronological | main.py:145 | inserting a timed stop into a chronological list keeps it chronological |
| ManifestFormat.SortByChronological | main.py:145 | when every stop has a valid time, the sorted stops are in order of time |
| ManifestFormat.InsertStable | main.py:145 | one insertion step keeps the order of the stops that share a time, and puts the new stop after those sharing its own |
| ManifestFormat.SortByStable | main.py:145 | `sorted` is stable: for every time, the stops with that time keep the order they had |
| ManifestFormat.StableChronologicalUnique | main.py:145 | two chronological arrangements of timed stops that keep the same stops, in the same order, at every time are equal |
| ManifestFormat.FormatItineraryDetermined | main.py:144-146 | when every stop has a time, the displayed itinerary is exactly the stops in time order, with stops at the same time in the order they were written |
| ManifestFormat.FormatItinerary | main.py:144-146 | the displayed itinerary joins a rearrangement of the stops with `", "`: in order of time when every stop has a time, and with stops at the same time in the order they were written |
| ManifestFormat.StopTimeOf | main.py:145 | the sort key of a tidy group's stop is the group's own time |
| ManifestFormat.SortedStopsSeparable | main.py:144-146 | the sorted stops still contain no `", "`, so their join splits back into them |
| ManifestFormat.StopsTimed | main.py:145 | when every group has a time, every stop's sort key is a valid time |
| ManifestFormat.FormatMergedItinerary | main.py:143-146 | the displayed itinerary holds exactly the groups' stops: in order of time when every group has one, and with stops at the same time in the order of their groups |
| Pipeline.MemberDisplayable | main.py:24-31 | each name in a group of displayable customers is non-empty, trimmed, one line and free of `;` |
| Pipeline.RecordTidy | main.py:33-52 | a row of displayable customers is tidy: its names split into exactly its count at `;` |
| Pipeline.RecordsTidy | main.py:33-52 | every row of displayable customers is tidy |
| Pipeline.MergedDisplay | main.py:95-146 | a vehicle's displayed manifest shows one annotated line per group it serves and each of their stops once (in time order when all are timed, stops at the same time in the order of their groups); its count is their total |
| Pipeline.EveryoneSeated | main.py:11-124 | when every group gets a vehicle, the merged manifests count every customer exactly once |

## Left out

- The Streamlit interface is not modelled: title, text areas, button, messages, sub-headers, table display and styling (main.py:64-92, 96-101, 126-132, 147 on). The input text, the default time and each group's operator text are parameters instead.
- The `if input_data:` guard (main.py:88) is not modelled. `ProcessPickupInfo` on empty input returns the error of line 0, which is what `process_pickup_info` itself would raise.
- Session state and reruns are not modelled. The model runs the merge once, on fresh rows.
  - The program changes the first group's table in place (main.py:122-123) and then appends to it (116-120).
  - A rerun on the same session state therefore prefixes the location again.
  - That aliasing and in-place update of pandas objects are not modelled.
- The `Car Plate` and `Mobile` columns (main.py:108-109) are not modelled as cells. A manifest's vehicle is its key in the merged map.
- pandas is modelled only through the values it produces:
  - a one-row table is a record;
  - `NaN`/`NaT` is `None`.
- The spreadsheet export (`io`) and the column ordering of the tables are not modelled.
- Case mapping covers ASCII letters only. `\d` and `%p` are modelled on ASCII digits and letters, where Python also accepts other Unicode digits and case forms.
- `Merge.BuildTimeEarliest`: the time comparison (main.py:119) and the sort key (main.py:145) call `pd.to_datetime` without a format.
  - The model reads them with the strict `%I:%M%p` reader instead.
  - The two agree on the canonical cells that reach them (`hh:mmam` and `nan`), both landing on the same day.
  - dateutil's lenient parsing of other text is not modelled.
- `ManifestFormat.SortBy`: when some stop's key is `NaT`, every comparison with it is false.
  - The order Python's sort then produces is not modelled.
  - In that case the model claims only a permutation that keeps the order of the stops sharing each key; these are facts about the model's insertion sort, not about Python's order.
  - When every key is a time, both sorts are stable, so `FormatItineraryDetermined` fixes the one order they both produce.
- `Pipeline.MergedDisplay`: the display claims are stated only for tidy groups. A tidy group has:
  - no `:` in the location;
  - no `;` or line break inside a name;
  - non-empty trimmed names.

  A name containing `;` is counted as several people by the display, and such inputs are outside the claim.

  `FormattedPersonsFails` states the failure case for any text.

