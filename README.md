# Restroom sign-out: a Dafny model of the log and the status derivations

The system is a classroom restroom sign-out kept in a Google spreadsheet.
A teacher marks a student "out" or "back", or queues the student when a
student of the same gender is already out. Each action becomes a row of the
`Log` sheet: date, student name, id, gender, teacher, out time, back time,
hold notice. Everything the page shows is derived from today's rows of that
log: who is out, who is waiting, and the girls' and boys' queues.

The project models that core of `Code.js`:

- **Reading today's rows.** A scan from the newest row upwards collects the
  named rows dated today and stops at the first named row of another date
  (`getTodaysLogEntries`). This is `LogRows.TodaysEntries`, and the
  `Log.TodaysLogEntries` method keeps the source's reverse loop with its
  `break`.
- **The primary status derivation.** `_getStatusLookupMap` groups the entries
  by student, folds each student's entries in row order, and keeps the
  students who end "out" or "waiting". The model proves the fold equal to a
  description without the fold (`Statuses.FoldDecides`):
  - a student is Out when no back time is on or after their last out row;
  - a student is Waiting when no row has an out time and some row has a hold
    notice;
  - otherwise the student is absent.
- **The fallback derivation.** `_getCurrentRestroomStatusFallback` scans
  newest first, and the first row that claims a student decides. A row with
  a back time claims nothing. The model proves the per-student form of this
  scan, and proves where the two derivations agree and where they disagree.
- **Which derivation is used.** `_getCurrentRestroomStatus` uses the primary
  map. The fallback runs only when the code around the lookup throws: the
  lookup swallows its own errors and returns an empty map. `LogSheet.Faults`
  makes these failures explicit parameters.
- **The writers.**
  - `_logOutEntry` and `_logWaitingEntry` append a row.
  - `_updateWaitingEntryToOut` overwrites the student's newest waiting row
    in place, or appends an out row when there is none.
  - `_logBackEntry` overwrites the newest open out row in place, or appends
    a back-only row.
  - `batchUpdateLogs` appends one row per valid update.

  The `Effects` module proves what each writer does to both derivations.
- **The requests.** `updateStatus` and `api_updateStudentStatusOptimized`
  each validate the request the same way their source does. An out request
  then chooses between promoting the student's own waiting row, joining the
  line at position (waiting count + 1), and going out. A back request closes
  the trip.
- **The roster side.**
  - `_getStudentRoster` reads the roster: column A is the name and column E
    the id, after two header rows.
  - `getLatestDailySheet` picks the daily sheet: the latest sheet whose name
    ends in `M/D`, otherwise the first present of the fallback names.
  - The roster is combined with the status map into the page's student list
    and queues.
- **Time text.** `_formatTimeToHHMM` writes "H:MM AM/PM" and
  `_parseTimeString` reads time text back. The model proves that reading back
  what was written gives the same hour and minute.

Rows are `LogRows.Row` values; the date cell is `Option<int>`, a day number,
where `None` stands for a blank or unparseable date. The header row of the
`Log` sheet is not part of `Log.rows`, so an entry's `rowIndex` is its index
in `rows` (one less than the source's index into the sheet data). JavaScript
truthiness of a cell is "non-empty string".

Where the prose description of the system and the code differ, the model
follows the code:

- **Unparseable dates.** A named row whose date cell does not parse is not
  skipped: it ends today's run like a row of another day
  (`LogRows.UnparseableDateCutsRun`).
- **Usage limits and queue renumbering.** There is no usage-limit policy and
  no renumbering of queue positions in the code, so the model has neither.
- **Where the writers look.** `_updateWaitingEntryToOut` and `_logBackEntry`
  look for today-dated rows anywhere in the log, not only in today's run.
- **Promotion and the lane.** The promotion path of an out request does not
  consult the lane. `OutDecision` chooses `Promote` before it looks at
  `LaneOccupied`. So one student per lane is not a guarantee of the code:
  `Effects.PromotionIgnoresLane` shows a student promoted while another
  student of the same gender is out, after which both are Out in that lane
  (`Effects.TwoOutInOneLane` is a two-row instance). The batch writer
  appends out rows with no lane check either. Only the ordinary out path
  keeps the lane exclusive (`Effects.GoOutHoldsLane`).
- **Back promotes no one.** A back request only closes the returning
  student's trip; every other student keeps their status
  (`Effects.BackPromotesNoOne`).

The two derivations disagree in three situations, each stated as a lemma:

- `Statuses.QueuedAfterCompletedTrip`: a student queued again after a
  finished trip is absent from the primary map but Waiting in the fallback.
- `Statuses.QueuedWhileOut`: a student who is out and queues again stays Out
  in the primary map but is Waiting in the fallback.
- `Statuses.BackOnlyRowsAfterOpenOut`: back-only rows after an open out row
  end the trip for the primary map, while the fallback still reports Out.

A 24-hour text "24:MM" parses as 12:MM (noon), as `Clock.ParseTwentyFourHour`
states.

## Model

| member | source | states |
|---|---|---|
| Text.Trim | Code.js:1261-1263 | the result is the input with its leading and trailing white space cut off: a slice of the input with only white space before and after it, itself with no white space at either end, and empty exactly when the input is blank |
| Text.TrimUnpadded | Code.js:1261-1262 | trimming a name that neither starts nor ends with white space leaves it unchanged |
| Text.NatToString | Code.js:1587 | the decimal text of a position is all digits, one digit exactly below 10 and two digits exactly for 10..99 |
| Text.PadTwo | Code.js:1762 | a minute padded to two places is exactly two digits |
| Text.DigitsValueOfNatToString | Code.js:1175-1176 | `parseInt` of the decimal text of n gives n back, for every n |
| Text.PadTwoValue | Code.js:1833 | `parseInt` of a two-place padded minute gives the minute back |
| Clock.Hour12 | Code.js:1766-1767 | the 12-hour clock hour is 1..12 and agrees with the 24-hour hour modulo 12 (0 becomes 12) |
| Clock.FormatTime | Code.js:1760-1770 | the time text is 7 or 8 characters: hour digits with value 1..12 congruent to the hour mod 12, a colon, two minute digits with the minute's value, a space, and AM or PM by half of the day |
| Clock.SplitClock | Code.js:1807-1812 | a match splits the text into one or two hour digits, a colon, exactly two minute digits and the rest |
| Clock.TwelveToTwentyFour | Code.js:1839-1851 | a 12-hour reading is accepted exactly when the hour is 1..12 and the minute 0..59; the result keeps the minute, lies in the afternoon exactly for PM and agrees with the hour mod 12 |
| Clock.ParseClockText | Code.js:1800-1849 | every accepted clock text gives a valid time of day |
| Clock.ParseTime | Code.js:1778-1861 | an empty value is rejected; an ISO timestamp is accepted only with the ISO prefix; every accepted clock reading is a valid time of day |
| Clock.ParseShortText | Code.js:1792-1800 | text without surrounding white space and shorter than an ISO timestamp goes straight to the clock patterns |
| Clock.FormatThenParse | Code.js:1760-1861 | parsing the text the formatter writes gives back the same hour and minute, for every time of day |
| Clock.ParseTwelveHour | Code.js:1807-1851 | "H:MM AM/PM" is accepted exactly for hours 1..12 and minutes 0..59, with the half of the day the suffix names |
| Clock.ParseTwentyFourHour | Code.js:1812-1849 | "HH:MM" is accepted exactly for hours 0..24 and minutes 0..59, and reads as that hour, except 24, which reads as 12 |
| LogRows.EntryOf | Code.js:797-807 | an entry records its row's index and its row's student name |
| LogRows.LastTodayRow | Code.js:779-794 | finds the bottom-most named row dated today above a bound, with no such row below it |
| LogRows.RunStart | Code.js:786-794 | the run ending at a bound starts just below the nearest named row of another date above that bound, or at the top, with no such row inside it |
| LogRows.TodaysShape | Code.js:739-827 | every entry is a named today row recorded with its row's cells, and the entries are in strictly ascending row order |
| LogRows.TodaysEntriesAreTheRun | Code.js:779-810 | today's entries are empty exactly when no row is a named today row; no today row lies below the last entry; every named row between the first and last entry is an entry; a today row above the first entry is cut off by a named row of another date |
| LogRows.TodaysEntriesEmptyIff | Code.js:779-794 | today's entries are empty exactly when the log has no named row dated today |
| LogRows.TodaysEntriesEndAtLastToday | Code.js:786-794 | no named row dated today lies below the last entry |
| LogRows.TodaysEntriesContiguous | Code.js:784-809 | every named row between the first and the last entry is one of today's entries |
| LogRows.TodaysEntriesCutOff | Code.js:788-792 | an earlier today row is excluded only because a named row of another date lies between it and the run |
| LogRows.RunStartIs | Code.js:786-794 | the run start is the row just below the nearest ending row, whichever rows lie between |
| LogRows.ReplaceRowKeepsRun | Code.js:1741-1746 | overwriting cells of a row, keeping its date and name, keeps today's entries at the same rows and changes only that row's entry |
| LogRows.AppendTodayRow | Code.js:1872-1877 | appending a today row adds its entry after today's entries when the run is still open, and otherwise starts a run holding only the new row |
| LogRows.OpenRunTail | Code.js:786-794 | the named rows below the nearest ending row are today's entries when the run is open, and none otherwise |
| LogRows.UnparseableDateCutsRun | Code.js:787-791 | a named row with an unparseable date followed by a today row leaves only that today row in today's entries |
| Statuses.EntriesForMembers | Code.js:1023-1032 | a student's group holds exactly the entries with that name, and is no longer than the entries |
| Statuses.EntriesForAbsent | Code.js:1026-1031 | a name that occurs in no entry has an empty group |
| Statuses.EntriesForSnoc | Code.js:1026-1031 | pushing an entry onto the entries extends exactly its own student's group |
| Statuses.LastOut | Code.js:1059-1065 | finds the newest entry with an out time, with none after it |
| Statuses.LastHold | Code.js:1073-1078 | the last hold notice is non-empty exactly when some entry carries a hold notice |
| Statuses.FoldSummary | Code.js:1041-1079 | after a student's entries, the fold holds the last non-empty gender and teacher; it holds whether any out time was seen and the last out time; it holds whether a back time lies on or after that out row; and it holds the hold notice (the last one when no out time was seen, empty otherwise) |
| Statuses.FoldDecides | Code.js:1081-1108 | a student is Out with the last out time when no back time is on or after the last out row; otherwise, with no out row, Waiting with the last hold notice; otherwise absent |
| Statuses.PrimaryHas | Code.js:1085-1104 | a student with entries and a derived status is in the status map with that status |
| Statuses.LookupShapes | Code.js:1081-1108 | every status in the primary map is exactly one of Out and Waiting |
| Statuses.GroupByName | Code.js:1023-1032 | the grouping loop yields, for each name of today's entries, exactly that student's entries in row order |
| Statuses.GroupStep | Code.js:1026-1031 | one grouping step adds the new entry's name to the names and leaves the other names' entries unchanged |
| Statuses.FoldStudent | Code.js:1041-1079 | the per-student loop computes the fold of that student's entries |
| Statuses.BuildStatusLookup | Code.js:1005-1121 | the loops of `_getStatusLookupMap` build exactly the status map of the fold, student by student |
| Statuses.LookupExtensional | Code.js:1035-1109 | a map agreeing with every student's derived status is the status map |
| Statuses.ClaimStatus | Code.js:1389-1406 | a claiming row gives Out when it has an out time and Waiting otherwise, never both, with the row's gender and teacher |
| Statuses.FallbackCons | Code.js:1384-1408 | an older row claims its student only when no newer row has, and only when it has no back time and has an out time or a hold notice |
| Statuses.LastClaim | Code.js:1384-1408 | finds the newest claiming entry, with none after it |
| Statuses.ClaimDecides | Code.js:1384-1408 | a claiming entry with no claiming entry after it decides the student's fallback status |
| Statuses.FallbackPerStudent | Code.js:1356-1414 | a student is in the fallback map exactly when one of their entries claims, and then with the status of their newest claim |
| Statuses.FallbackHas | Code.js:1356-1414 | the fallback map holds the status a student's newest claim gives |
| Statuses.FallbackShapes | Code.js:1386-1407 | every status in the fallback map is exactly one of Out and Waiting |
| Statuses.AgreeOnOpenTrip | Code.js:1081-1094 | a student whose newest row is an open out row is Out in both maps, with the same out time |
| Statuses.QueuedAfterCompletedTrip | Code.js:1082-1084 | a student who queued after a completed trip is absent from the primary map and Waiting in the fallback |
| Statuses.QueuedWhileOut | Code.js:1072-1078 | a student who queued while out stays Out in the primary map and is Waiting in the fallback |
| Statuses.BackOnlyRowsAfterOpenOut | Code.js:1067-1070 | back-only rows after an open out row remove the student from the primary map, while the fallback still reports the open out row |
| Statuses.ScanForOccupant | Code.js:1646-1656 | the scan answers true exactly when some student of that gender has an out time and no back time |
| Statuses.OccupiedIffOpenTrip | Code.js:1646-1656 | on the primary map, a lane is occupied exactly when some student whose last gender is that lane's has an out row with no back time on or after it |
| Statuses.WaitingIffQueuedOnly | Code.js:1659-1672 | on the primary map, a student waits in a lane exactly when they have no out row today, some hold notice, and that lane's gender as their last gender |
| Statuses.CountWaiting | Code.js:1580-1586 | the count is the number of students of that gender with a hold notice and no out time |
| Statuses.QueueList | Code.js:1659-1672 | the girls' and boys' queues are exactly the waiting students of gender G and of gender B |
| Roster.GetStudentRoster | Code.js:1228-1284 | fewer than two sheet rows is an error; otherwise the roster is, in row order, one student per row below the two header rows whose trimmed name is non-empty |
| Roster.RosterNamesClean | Code.js:1261-1268 | every roster name is non-empty and already trimmed, and there are no more students than rows |
| Roster.RosterFromRows | Code.js:1249-1275 | every roster student comes from some data row |
| Roster.RosterComplete | Code.js:1261-1268 | every data row with a non-blank name gives a student with the trimmed name and the trimmed id |
| Roster.DaySlash | Code.js:1173 | the day part found is one or two digits after a slash at the end of the name |
| Roster.MonthDigits | Code.js:1173 | the month part found is at most two digits just before the slash |
| Roster.MonthDayRoundTrip | Code.js:1173-1176 | a sheet name ending in M/D or MM/DD, after a non-digit, reads back as that month and day |
| Roster.MonthDayDigits | Code.js:1173-1176 | a name ending in one or two month digits, a slash and one or two day digits reads as their values |
| Roster.SheetNamed | Code.js:1210 | finds the first sheet with that name, or reports that none has it |
| Roster.FirstPresent | Code.js:1208-1221 | the chosen sheet carries one of the fallback names; an error means no fallback name is present |
| Roster.FirstPresentPreference | Code.js:1208-1215 | the chosen sheet carries the earliest fallback name that any sheet has, and it is the first sheet with that name |
| Roster.LatestDateSheet | Code.js:1165-1203 | picks a date sheet with the latest date, the first such in sheet order; none only when no sheet name is a valid month/day |
| Roster.FallbackSheet | Code.js:1208-1221 | the fallback search is the first-present search over Database, Students, Roster, AM, PM, in that order |
| Roster.LatestDailySheet | Code.js:1158-1222 | a date sheet is chosen whenever one exists, otherwise the fallback search decides |
| Roster.CombineRosterAndStatus | Code.js:443-477 | one view per roster student, in roster order, with that student's status or empty fields; the queues list the waiting students of G and of B in roster order |
| Roster.WaitingNamesMembers | Code.js:470-473 | a student is in a queue exactly when they are on the roster and waiting with that gender |
| LogSheet.LastWaitingRow | Code.js:1733-1747 | finds the newest today row of the student with a hold notice and no out or back time, anywhere in the log |
| LogSheet.LastOpenOutRow | Code.js:1898-1913 | finds the newest today row of the student with an out time and no back time, anywhere in the log |
| LogSheet.RosterId | Code.js:1540-1543 | the id of the first roster student with that name, or empty when none has it |
| LogSheet.Log.TodaysLogEntries | Code.js:739-827 | the reverse scan with its early stop yields exactly today's entries |
| LogSheet.Log.StatusLookupMap | Code.js:1005-1121 | the status map read from the log is the primary derivation over today's entries |
| LogSheet.Log.CurrentRestroomStatusFallback | Code.js:1329-1424 | the newest-first scan with early stop yields exactly the fallback derivation over today's entries |
| LogSheet.Log.CurrentRestroomStatus | Code.js:1294-1323 | the status is the primary map unless the lookup fails (empty map) or its surroundings fail (the fallback map, or empty if that fails too) |
| LogSheet.Log.CheckOtherOut | Code.js:1646-1656 | the answer is whether the lane is occupied in the status read from the log |
| LogSheet.Log.LogOutEntry | Code.js:1864-1878 | appends exactly one row: today, the student, the formatted out time, nothing else |
| LogSheet.Log.LogWaitingEntry | Code.js:1704-1716 | appends exactly one row: today, the student, the hold notice |
| LogSheet.Log.UpdateWaitingEntryToOut | Code.js:1722-1753 | sets the out time and clears the hold notice of the student's newest waiting row, and changes no other row; with no waiting row it appends an out row |
| LogSheet.Log.LogBackEntry | Code.js:1881-1921 | sets the back time of the student's newest open out row, and changes no other row; with none it appends a back-only row |
| LogSheet.Log.RequestOut | Code.js:1549-1624 | a student waiting in the status read is promoted; otherwise, when the lane is occupied, a waiting row is appended with position = waiting count + 1; otherwise an out row is appended |
| LogSheet.Log.UpdateStatus | Code.js:1513-1643 | validation failures (name, teacher, missing gender for out, gender other than G or B) and an unreadable roster leave the log unchanged; out and back act as above; other actions write nothing |
| LogSheet.Log.BatchUpdateLogs | Code.js:867-959 | appends one row per valid update in update order and counts each update as written or failed, reporting the failures in order |
| LogSheet.Log.UpdateStudentStatusOptimized | Code.js:3668-3818 | validation failures leave the log unchanged; out as in `updateStatus`; back closes the open out row; hold appends a waiting row with the default notice "Waiting in line" |
| Effects.OutRowMakesOut | Code.js:1864-1878 | after an out row is appended, the student is Out in both maps with the written out time; the primary map has the row's gender when it is given, the fallback its gender and teacher |
| Effects.GoOutHoldsLane | Code.js:1574-1607 | when the lane was free and the student goes out, the lane becomes occupied and the student is its only occupant |
| Effects.WaitingRowQueues | Code.js:1704-1716 | a student with no out row today who gets a waiting row is Waiting with that notice in both maps |
| Effects.BackOnlyRowEndsTrip | Code.js:1916-1919 | a student with an out row today is no longer in the primary map once a back-only row is appended |
| Effects.PromoteMakesOut | Code.js:1722-1753 | promoting a Waiting student with no back time today makes them Out with the promotion time in both maps |
| Effects.BackFreesOutStudent | Code.js:1881-1913 | a back request for a student who is Out removes them from the primary map |
| Effects.ValidationsAgreeOnOut | Code.js:1517-1531 | the two request handlers accept exactly the same out requests |
| Effects.BackGenderOnlyCheckedByUpdateStatus | Code.js:1517-1531 | for a back request with a name and a teacher, `updateStatus` refuses exactly the non-empty genders other than G and B, while the optimized handler accepts every gender |
| Effects.SameGroupSameStatus | Code.js:1035-1108 | a student with the same entries in two logs has the same status in both maps |
| Effects.OtherAfterReplace | Code.js:1741-1746 | overwriting cells of another student's row keeps a student's status in both maps |
| Effects.OtherAfterAppend | Code.js:1872-1877 | appending another student's row keeps a student's status in both maps while the run is open, and otherwise leaves the student in neither map |
| Effects.BackPromotesNoOne | Code.js:1881-1921 | a back request changes no other student's status in either map, except that a back-only row starting a new run leaves them in neither map; nobody becomes Out, and a Waiting student stays Waiting while the run is open |
| Effects.PromoteKeepsOthers | Code.js:1722-1753 | promoting a student changes no other student's status in either map, with the same exception for a new run |
| Effects.PromotionIgnoresLane | Code.js:1553-1576 | with one student out in a lane and another waiting in it, the out request for the waiting one reads the lane as occupied but still promotes, and afterwards both are Out in that lane |
| Effects.TwoOutInOneLane | Code.js:1553-1560 | a two-row log where an out request for Y leaves X and Y both Out in lane G |
| Effects.BatchAccounts | Code.js:893-928 | every update of a batch is either written or reported failed, never both and never neither |
| Effects.BatchRowsAreToday | Code.js:889-921 | every row a batch writes is dated today and carries a student name, so it joins today's run |

## Left out

- Spreadsheet access, caches and the performance monitor are not modelled. The log and the roster are values, and a failure of the monitor is the `Faults` parameter.
- Dates and clocks are parameters. `Now` carries the day and the local hour and minute; `toLocaleDateString` equality is equality of day numbers.
- The ISO branch of `_parseTimeString` is modelled only as its prefix check. A `Date` value passed in is not modelled, and `Date` construction from an ISO text is foreign code.
- The 5-second per-student lock of `api_updateStudentStatusOptimized` is not modelled, because it depends on wall-clock time and a property store shared between users.
- `_promoteNextFromQueue` is not modelled, because nothing in the code calls it.
- Creating a missing `Log` sheet is not modelled, and neither are the early returns when the sheet is missing; the log always exists here.
- The per-row `try/catch` of `batchUpdateLogs` is not modelled, because with string cells none of its row steps can throw.
- `_getCurrentRestroomStatusFallback` keeps its statuses in a plain JavaScript object and asks it `hasOwnProperty` for every row. Once a row of a student named `hasOwnProperty` claims that name, the check of every older row throws, and the per-row `try/catch` skips those rows, so the claims of older students are lost. The model does not capture these skipped rows: `Statuses.FallbackPerStudent` describes the scan as if every row step succeeded.
- Cells are strings. Numbers, dates and other cell values of the sheet are not modelled.
- Error message texts are not modelled: errors are datatype constructors.
- `_getStatusLookupMap` groups entries in a plain JavaScript object, so a student named like an `Object.prototype` member (`constructor`, `toString`, `__proto__`) makes its grouping throw, and the primary map becomes empty. This data-dependent throw is folded into the `lookupThrows` fault rather than derived from the names.
- One student out per lane is not modelled as a guarantee, because the code does not keep it: promotion and batch out rows skip the lane check.
- Statuses.QueueList: returns sets, not lists, because the iteration order of a JavaScript object is not modelled.
- Roster.LatestDateSheet: the descending sort is modelled as choosing the first sheet with the latest date, which is what a stable sort puts first.
- LogSheet.Log.RequestOut: the status is read once. `_checkOtherOut` reads it a second time, and the model assumes that second read sees the same log and faults.
- LogSheet.Log.UpdateStatus: the roster comes in as a parameter; `None` stands for a daily sheet or roster that cannot be read.
- LogSheet.Log.UpdateStudentStatusOptimized: the cached roster comes in as a parameter, and the response object and the cache refresh after the write are not modelled.
- The usage-limit policy and the renumbering of queue positions are not in the code, so they are not modelled.
- Effects.PromoteMakesOut: stated only for a student with no back time today. With a back-only row after the waiting row, the promoted trip ends at once in the primary map.
