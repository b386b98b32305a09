# Classroom scheduling: timetable layout, day report and scheduling store

This project models the two pieces of logic in a small classroom-scheduling
dashboard and its backend, and proves properties of them in Dafny.

- **The dashboard's weekly timetable** (`renderTimetable`). The grid has one row
  per hour from 7 to 18, labelled `H:00`, and one cell per weekday from Monday
  to Friday. Each cell holds the *first* class, in the order the classes were
  received, that is held on that day, starts in that hour and is in the room
  the filter selects. The filter `"all"` admits every room. The start hour is the
  number at the start of `start_time`, before its first `:`. An occupied cell
  shows the class's name and room, and carries the id its delete action uses.
  The grid is kept as data (`Timetable.Row`, `Timetable.Cell`), not as HTML.
- **The dashboard's report** (`renderReports`). It is one bar per weekday, Monday
  to Friday. Each bar counts the classes held on that day and is 20 pixels
  high per class.
- **The backend's two tables** (`classrooms`, `classes`) and their handlers.
  They are modelled as a class `Backend.Store` whose fields are sequences of rows:
  - `add_class` refuses with 409 when a row with the same room, day and start
    time exists;
  - `add_room` refuses with 400 when the name is taken;
  - `delete_class` removes rows by id;
  - `stats` counts the rows;
  - the get handlers return every row.

Files:

- `records.dfy` holds the rows and request bodies.
- `calendar.dfy` holds the weekdays, the hours, reading the hour out of `start_time`, and writing a row label.
- `timetable.dfy` holds the layout and the loops that build it.
- `reports.dfy` holds the report.
- `backend.dfy` holds the tables.
- `cross_checks.dfy` shows how the backend's rules and the grid interact.

Two details of the code that the model keeps:

- A class row also has `end_time`. The backend stores it but never consults it, and the grid never shows it.
- Neither side checks that `day` is one of Monday to Friday. The model accepts any text, and the grid leaves such a class out.

## Model

| member | source | states |
|---|---|---|
| Calendar.BeforeColon | script.js:64 | the result is the prefix of the text up to the first ':' (all of it when there is none): a prefix, free of ':', followed by ':' or the end |
| Calendar.LeadingDigits | script.js:64 | the result is the longest run of decimal digits opening the text |
| Calendar.StartHour | script.js:64 | the hour read from a start time is "none" (NaN) exactly when the text does not open with a digit (its value otherwise is given by `StartHourOfDigits`) |
| Calendar.DecimalText | script.js:57 | `${n}` is a non-empty string of digits with no leading zero |
| Calendar.DecimalRoundTrip | script.js:57 | reading back the digits written for n gives n |
| Calendar.BeforeColonKeepsDigits | script.js:64 | a run of digits passes through the `split(':')[0]` step unchanged |
| Calendar.LeadingDigitsStops | script.js:64 | the leading digit run of digits followed by the end or a non-digit is exactly those digits |
| Calendar.StartHourOfDigits | script.js:64 | a start time opening with digits followed by the end or a non-digit ("9", "9h30", "9.5:00", "09:00") is read as the value of those digits |
| Calendar.HourLabel | script.js:57 | the row label is the hour's digits followed by ":00", and read as a start time it gives back that hour |
| Timetable.Admits | script.js:65 | the filter "all" admits every class; any other filter value admits exactly the classes whose room equals it |
| Timetable.Matches | script.js:64-65 | a class matches a cell when its day equals the column's day, its parsed start hour equals the row's hour, and the filter admits it |
| Timetable.CellOf | script.js:69-70 | an occupied cell shows the class's name and room, and its click deletes the class by id |
| Timetable.CellAt | script.js:63-71 | a cell is empty when no class matches, and otherwise shows the class `FirstMatch` selects |
| Timetable.FirstMatch | script.js:63-66 | the selected index matches the cell (day, parsed hour, room filter) and no smaller index does; "none" means no class matches |
| Timetable.InRoom | script.js:65 | the classes kept are exactly those held in the given room |
| Timetable.InRoomAppend | script.js:65 | `InRoom` keeps the classes' order: appending a class appends it to the result exactly when it is in the room |
| Timetable.RowAt | script.js:59-73 | a row has one cell per weekday |
| Timetable.Layout | script.js:54-75 | the grid has one row per hour from 7 to 18 and each row one cell per weekday |
| Timetable.CellIsOccupant | script.js:63-71 | the cell in row i, column j is empty when no class is selected, and otherwise shows the selected class's name, room and id |
| Timetable.CellSkipsHead | script.js:63 | a first class that does not match leaves the cell to the remaining classes |
| Timetable.FindClass | script.js:63-66 | the linear scan returns the class at the first matching index, or nothing when none matches |
| Timetable.RenderTimetable | script.js:49-76 | the nested hour and weekday loops build exactly the layout |
| Timetable.GridShape | script.js:54-59 | 12 rows, row i labelled with the text `${7+i}:00` (which reads back as hour 7+i, so the hours increase), 5 cells each, columns Monday to Friday |
| Timetable.CellSelectsFirstMatch | script.js:63-71 | a cell is occupied iff some class matches it, and it then shows the matching class of smallest index (first match wins) |
| Timetable.ShownAtMostOnce | script.js:54-66 | a class is selected by at most one cell |
| Timetable.OffGridNeverShown | script.js:54-66 | a class on a non-weekday, or with no hour or an hour outside 7 to 18, is selected by no cell |
| Timetable.RoomFilterExcludesOtherRooms | script.js:65 | with a room selected, a class of another room is selected nowhere and every occupied cell shows the selected room |
| Timetable.AllRoomsIgnoresRoomNames | script.js:65 | with the filter "all", the selection depends only on days and start times, not on rooms |
| Timetable.RoomFilterIsSublist | script.js:65 | selecting a room gives the cells that "all" gives for that room's classes alone |
| Timetable.ShownWhenFirst | script.js:63-70 | a weekday class in a grid hour that the filter admits, with no earlier class matching its cell, is shown in its cell |
| Reports.OnDay | script.js:101 | the filtered classes are exactly those held on the given day |
| Reports.OnDayAppend | script.js:101 | `OnDay` keeps the classes' order: appending a class appends it to the result exactly when it is held on that day |
| Reports.BarFor | script.js:101-102 | a day's bar carries the day, the number of that day's classes, a height of 20 px per class, and the day's first three letters |
| Reports.Report | script.js:98-103 | the chart has one bar per weekday |
| Reports.OnDayCountsDay | script.js:101 | the count for a day equals the number of occurrences of that day among all classes' days |
| Reports.ReportBar | script.js:98-102 | bar i is for the i-th weekday, counts that day's classes, is 20 px per class high and is captioned with the day's first three letters |
| Reports.WeekCountTotal | script.js:98-101 | summed over the five weekdays, the per-day counts are at most the number of classes, and equal it when every class is on a weekday |
| Reports.ReportTotal | script.js:98-101 | the bars together count at most every class, and exactly every class when all are on weekdays |
| Records.StoredClass | main.py:99-100 | the inserted class row carries the request's class id, name, teacher, room, day, start and end time under the new key |
| Records.StoredRoom | main.py:74-75 | the inserted classroom row carries the request's name, capacity and equipment under the new key |
| Backend.Conflict | main.py:93-94 | a request conflicts when some existing row has the same room, day and start time, each compared as exact text |
| Backend.RoomNameTaken | main.py:24 | a name is taken when some classroom row already has it (the `UNIQUE` column) |
| Backend.NewClassId | main.py:25-27 | a new `classes` key is positive and used by no row |
| Backend.NewRoomId | main.py:23-24 | a new `classrooms` key is positive and used by no row |
| Backend.WithoutId | main.py:108 | the rows kept are exactly the rows whose id differs from the deleted one |
| Backend.InsertKeepsSlotsDistinct | main.py:93-100 | inserting a class whose slot has no conflict keeps (room, day, start time) distinct across rows |
| Backend.ConflictReadsSlotOnly | main.py:93-94 | the conflict test depends only on room, day and start time |
| Backend.OverlapIsNoConflict | main.py:93-94 | overlapping intervals in the same room and day (09:00-11:00 against 10:00-11:00) are not a conflict |
| Backend.DeleteAbsentId | main.py:106-111 | deleting an id no row has leaves the table unchanged |
| Backend.DeleteRemovesOneRow | main.py:106-111 | with distinct ids, deleting row k's id removes exactly row k and keeps all others in order |
| Backend.DeleteKeepsSlotsDistinct | main.py:108 | deleting keeps the rows' slots distinct |
| Backend.DeleteKeepsIdsDistinct | main.py:108 | deleting keeps the rows' ids distinct |
| Backend.Store.constructor | main.py:20-29 | on a fresh database file both tables are created empty |
| Backend.Store.Stats | main.py:54-61 | totalClasses and totalClassrooms are the sizes of the two tables |
| Backend.Store.GetRooms | main.py:63-68 | every classroom row is returned, in table order |
| Backend.Store.GetClasses | main.py:82-87 | every class row is returned, in table order |
| Backend.Store.AddRoom | main.py:70-80 | a taken name is refused with 400 and nothing changes; otherwise one row with the given fields and a fresh key is appended and the classroom echoed; names stay unique |
| Backend.Store.AddClass | main.py:89-103 | a conflicting slot is refused with 409 and nothing changes; otherwise one row with the given fields and a fresh key is appended, earlier rows unchanged, and distinct slots stay distinct |
| Backend.Store.DeleteClass | main.py:105-111 | the rows with the id are removed, the others kept in order, the answer is "Deleted" either way, and distinct slots stay distinct |
| CrossChecks.NineOClock | script.js:64 | "09:00" and "09:30" are both read as hour 9 |
| CrossChecks.SingletonCell | script.js:63-71 | with one class, a cell shows it exactly when it matches |
| CrossChecks.SingleMondayClass | script.js:54-71 | one class on Monday at 09:00 with filter "all" fills the Monday cell of the 9:00 row, and every other cell is empty |
| CrossChecks.EarlierTwinHides | script.js:63-65 | a class preceded by an admitted class with the same day and hour is shown in no cell |
| CrossChecks.HiddenDoubleBooking | script.js:63-65 | the backend (main.py:93-94) accepts "09:30" beside "09:00" in the same room and day, yet the room's grid shows only the first and the second nowhere |
| CrossChecks.AppendKeepsShownClass | script.js:63 | appending a class (as `add_class` does) keeps every occupied cell's class, and fills an empty cell it matches |
| CrossChecks.DeletedClassNotShown | script.js:63-70 | after a delete by id, no cell offers a class with that id |

## Left out

- Network I/O: the fetches, `Promise.all`, `await` and the catch-and-log handling of a failed load (script.js:16-40). The dashboard is modelled as functions of the class sequence that `GET /api/classes` returns.
- DOM work: tab switching, the room select, the classroom cards, the class table, modals, the confirmation dialog, the date display, and the HTML strings of the grid and chart (script.js:7-13, 42-46, 78-95, 107-141). Cells and bars are data.
- Form serialisation and the POST and DELETE requests the page sends (script.js:107-133).
- FastAPI routing, CORS, request validation and coercion, and SQLite connections and commits (main.py:1-31, 48-51). The tables are sequences in a class, and a handler runs as one atomic step.
- Backend.Store.AddRoom: refuses only a duplicate name. The bare `except` (main.py:79-80) also turns any other database failure into 400, and that is not modelled.
- Calendar.StartHour: reads only the run of decimal digits that opens the text before the first ':'. It does not model `parseInt`'s trimming of leading whitespace, its signs, or its `0x` hexadecimal prefix.
- Backend.NewClassId: gives a fresh positive key. SQLite's actual choice of key (usually the largest key plus one) is not promised. Backend.NewRoomId is modelled the same way.
- Backend.Store.constructor: models only the first start on a fresh database file. `CREATE TABLE IF NOT EXISTS` on the persistent `school.db` (main.py:23-27) keeps whatever rows an earlier run left, and those are not modelled.
- Backend.Store.DeleteClass: answers "Deleted" for every integer id. SQLite binds the id as a 64-bit integer (main.py:108), so an id outside -2^63 to 2^63-1 raises an overflow error and the request fails with status 500 instead. That case is not modelled.
- Backend.Store.GetClasses: returns rows in insertion order. `SELECT *` without `ORDER BY` promises no order. Backend.Store.GetRooms is modelled the same way.
- Backend.Store.AddClass: does not assume slots are distinct, because the database does not enforce it. It only preserves that property when it already holds.
