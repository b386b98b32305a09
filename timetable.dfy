/** The weekly timetable of the dashboard: one row per hour from 7 to 18, one
    cell per weekday from Monday to Friday, and in each cell the first class
    (in the order the classes were received) that is held on that day, starts
    in that hour and is in the room the filter selects. Cells are kept as data:
    an occupied cell shows the class's name and room and deletes the class by
    its id when clicked. */
module Timetable {
  import opened Records
  import opened Calendar

  /** The filter value that admits every room. */
  const AllRooms: string := "all"

  datatype Cell = Empty | Entry(name: string, room: string, id: int)

  datatype Row = Row(timeLabel: string, cells: seq<Cell>)

  /** What an occupied cell shows of a class, and the id its delete action uses. */
  function CellOf(c: ClassRow): Cell {
    Entry(c.name, c.roomName, c.id)
  }

  predicate Admits(filter: string, c: ClassRow) {
    filter == AllRooms || c.roomName == filter
  }

  /** The condition the cell for (`day`, `h`) asks of a class. */
  predicate Matches(c: ClassRow, day: string, h: nat, filter: string) {
    c.day == day && StartHour(c.startTime) == Some(h) && Admits(filter, c)
  }

  /** The index of the class the cell for (`day`, `h`) selects, as `Array.find`
      takes it: the smallest index that matches, or `None` when none does. */
  function FirstMatch(classes: seq<ClassRow>, day: string, h: nat, filter: string): (r: Option<nat>)
    ensures r.Some? ==> r.value < |classes| && Matches(classes[r.value], day, h, filter)
    ensures r.Some? ==> forall j :: 0 <= j < r.value ==> !Matches(classes[j], day, h, filter)
    ensures r.None? ==> forall j :: 0 <= j < |classes| ==> !Matches(classes[j], day, h, filter)
  {
    if classes == [] then None
    else if Matches(classes[0], day, h, filter) then Some(0)
    else match FirstMatch(classes[1..], day, h, filter)
      case None => None
      case Some(k) => Some(k + 1)
  }

  /** The cell for (`day`, `h`). */
  function CellAt(classes: seq<ClassRow>, day: string, h: nat, filter: string): Cell {
    match FirstMatch(classes, day, h, filter)
    case None => Empty
    case Some(k) => CellOf(classes[k])
  }

  /** The row for hour `h`: its label and one cell per weekday. */
  function RowAt(classes: seq<ClassRow>, filter: string, h: nat): (r: Row)
    ensures |r.cells| == |Weekdays|
  {
    Row(HourLabel(h), seq(|Weekdays|, j requires 0 <= j < |Weekdays| => CellAt(classes, Weekdays[j], h, filter)))
  }

  /** The whole grid: the rows for hours `FirstHour` to `LastHour`, in order. */
  function Layout(classes: seq<ClassRow>, filter: string): (r: seq<Row>)
    ensures |r| == LastHour - FirstHour + 1
    ensures forall i :: 0 <= i < |r| ==> |r[i].cells| == |Weekdays|
  {
    var r := seq(LastHour - FirstHour + 1, i requires 0 <= i <= LastHour - FirstHour => RowAt(classes, filter, FirstHour + i));
    assert forall i :: 0 <= i < |r| ==> r[i] == RowAt(classes, filter, FirstHour + i);
    r
  }

  /** The index of the class shown in row `i`, column `j` of the grid. */
  function Occupant(classes: seq<ClassRow>, filter: string, i: nat, j: nat): Option<nat>
    requires i <= LastHour - FirstHour && j < |Weekdays|
  {
    FirstMatch(classes, Weekdays[j], FirstHour + i, filter)
  }

  /** What the grid's row `i`, column `j` holds is the class `Occupant` names. */
  lemma CellIsOccupant(classes: seq<ClassRow>, filter: string, i: nat, j: nat)
    requires i <= LastHour - FirstHour && j < |Weekdays|
    ensures Layout(classes, filter)[i].cells[j] ==
      match Occupant(classes, filter, i, j)
      case None => Empty
      case Some(k) => CellOf(classes[k])
  {
    assert Layout(classes, filter)[i] == RowAt(classes, filter, FirstHour + i);
  }

  /** A first class that fails to match leaves the cell to the remaining classes. */
  lemma CellSkipsHead(classes: seq<ClassRow>, day: string, h: nat, filter: string)
    requires classes != [] && !Matches(classes[0], day, h, filter)
    ensures CellAt(classes, day, h, filter) == CellAt(classes[1..], day, h, filter)
  {
    match FirstMatch(classes[1..], day, h, filter)
    case None =>
    case Some(k) => assert classes[k + 1] == classes[1..][k];
  }

  /** The linear scan `allClasses.find(...)` that fills one cell. */
  method FindClass(classes: seq<ClassRow>, day: string, h: nat, filter: string) returns (found: Option<ClassRow>)
    ensures found == (match FirstMatch(classes, day, h, filter)
                      case None => None
                      case Some(k) => Some(classes[k]))
  {
    var i := 0;
    while i < |classes|
      invariant 0 <= i <= |classes|
      invariant forall j :: 0 <= j < i ==> !Matches(classes[j], day, h, filter)
    {
      if Matches(classes[i], day, h, filter) {
        return Some(classes[i]);
      }
      i := i + 1;
    }
    return None;
  }

  /** One more row of the grid: the prefix of `n + 1` rows extends that of `n` rows. */
  lemma LayoutPrefixStep(classes: seq<ClassRow>, filter: string, n: nat)
    requires n <= LastHour - FirstHour
    ensures Layout(classes, filter)[..n + 1] == Layout(classes, filter)[..n] + [RowAt(classes, filter, FirstHour + n)]
  {
    var layout := Layout(classes, filter);
    assert layout[n] == RowAt(classes, filter, FirstHour + n);
    assert layout[..n + 1] == layout[..n] + [layout[n]];
  }

  /** One more cell of a row: the prefix of `d + 1` cells extends that of `d` cells. */
  lemma RowPrefixStep(classes: seq<ClassRow>, filter: string, h: nat, d: nat)
    requires d < |Weekdays|
    ensures RowAt(classes, filter, h).cells[..d + 1] ==
      RowAt(classes, filter, h).cells[..d] + [CellAt(classes, Weekdays[d], h, filter)]
  {
    var cells := RowAt(classes, filter, h).cells;
    assert cells[d] == CellAt(classes, Weekdays[d], h, filter);
    assert cells[..d + 1] == cells[..d] + [cells[d]];
  }

  /** Builds the grid row by row, and each row cell by cell, as the page does. */
  method RenderTimetable(classes: seq<ClassRow>, filter: string) returns (grid: seq<Row>)
    ensures grid == Layout(classes, filter)
  {
    grid := [];
    var h := FirstHour;
    while h <= LastHour
      invariant FirstHour <= h <= LastHour + 1
      invariant grid == Layout(classes, filter)[..h - FirstHour]
    {
      var cells: seq<Cell> := [];
      var d := 0;
      while d < |Weekdays|
        invariant 0 <= d <= |Weekdays|
        invariant cells == RowAt(classes, filter, h).cells[..d]
      {
        var found := FindClass(classes, Weekdays[d], h, filter);
        var cell := if found.Some? then CellOf(found.value) else Empty;
        assert cell == CellAt(classes, Weekdays[d], h, filter);
        RowPrefixStep(classes, filter, h, d);
        cells := cells + [cell];
        d := d + 1;
      }
      assert Row(HourLabel(h), cells) == RowAt(classes, filter, h);
      LayoutPrefixStep(classes, filter, h - FirstHour);
      grid := grid + [Row(HourLabel(h), cells)];
      h := h + 1;
    }
  }

  /** The classes of `classes` held in room `room`, in their original order. */
  function InRoom(classes: seq<ClassRow>, room: string): (r: seq<ClassRow>)
    ensures forall c :: c in r <==> c in classes && c.roomName == room
  {
    if classes == [] then []
    else if classes[0].roomName == room then [classes[0]] + InRoom(classes[1..], room)
    else InRoom(classes[1..], room)
  }

  /** `InRoom` keeps the order of the classes: appending a class appends it to
      the result when it is in the room, and leaves the result alone otherwise. */
  lemma {:induction false} InRoomAppend(classes: seq<ClassRow>, c: ClassRow, room: string)
    ensures InRoom(classes + [c], room) == InRoom(classes, room) + (if c.roomName == room then [c] else [])
  {
    if classes != [] {
      assert (classes + [c])[1..] == classes[1..] + [c];
      InRoomAppend(classes[1..], c, room);
    }
  }

  /** The layout of the grid: 12 rows for the hours 7 to 18 in increasing order,
      each labelled with its hour and holding one cell per weekday. */
  lemma GridShape(classes: seq<ClassRow>, filter: string)
    ensures |Layout(classes, filter)| == 12
    ensures forall i :: 0 <= i < 12 ==> Layout(classes, filter)[i].timeLabel == HourLabel(7 + i)
    ensures forall i :: 0 <= i < 12 ==>
      StartHour(Layout(classes, filter)[i].timeLabel) == Some(7 + i) &&
      |Layout(classes, filter)[i].cells| == 5
    ensures Weekdays == ["Monday", "Tuesday", "Wednesday", "Thursday", "Friday"]
  {
    forall i | 0 <= i < 12
      ensures Layout(classes, filter)[i].timeLabel == HourLabel(7 + i)
      ensures StartHour(Layout(classes, filter)[i].timeLabel) == Some(7 + i)
    {
      assert Layout(classes, filter)[i] == RowAt(classes, filter, FirstHour + i);
    }
  }

  /** A cell is occupied exactly when some class matches it, and then it shows
      the matching class with the smallest index. */
  lemma CellSelectsFirstMatch(classes: seq<ClassRow>, filter: string, i: nat, j: nat)
    requires i < 12 && j < 5
    ensures var cell := Layout(classes, filter)[i].cells[j];
      (cell.Entry? <==> exists k :: 0 <= k < |classes| && Matches(classes[k], Weekdays[j], FirstHour + i, filter))
    ensures var cell := Layout(classes, filter)[i].cells[j];
      forall k :: (0 <= k < |classes| && Matches(classes[k], Weekdays[j], FirstHour + i, filter) &&
        forall m :: 0 <= m < k ==> !Matches(classes[m], Weekdays[j], FirstHour + i, filter)) ==>
        cell == CellOf(classes[k])
  {
    var d, h := Weekdays[j], FirstHour + i;
    CellIsOccupant(classes, filter, i, j);
    forall k | 0 <= k < |classes| && Matches(classes[k], d, h, filter) &&
      (forall m :: 0 <= m < k ==> !Matches(classes[m], d, h, filter))
      ensures Occupant(classes, filter, i, j) == Some(k)
    {
    }
  }

  /** The class at index `k` is shown in at most one cell: it has one day and one hour. */
  lemma ShownAtMostOnce(classes: seq<ClassRow>, filter: string, k: nat, i1: nat, j1: nat, i2: nat, j2: nat)
    requires i1 < 12 && j1 < 5 && i2 < 12 && j2 < 5
    requires Occupant(classes, filter, i1, j1) == Some(k)
    requires Occupant(classes, filter, i2, j2) == Some(k)
    ensures i1 == i2 && j1 == j2
  {
  }

  /** A class held on a day other than Monday to Friday, or starting outside
      the hours 7 to 18 (or at no readable hour), is shown in no cell. */
  lemma OffGridNeverShown(classes: seq<ClassRow>, filter: string, k: nat)
    requires k < |classes|
    requires classes[k].day !in Weekdays || StartHour(classes[k].startTime).None? ||
             !(FirstHour <= StartHour(classes[k].startTime).value <= LastHour)
    ensures forall i, j :: 0 <= i < 12 && 0 <= j < 5 ==> Occupant(classes, filter, i, j) != Some(k)
  {
  }

  /** With a room selected, a class in another room is shown nowhere, and every
      occupied cell shows a class of the selected room. */
  lemma RoomFilterExcludesOtherRooms(classes: seq<ClassRow>, room: string, k: nat)
    requires room != AllRooms && k < |classes| && classes[k].roomName != room
    ensures forall i, j :: 0 <= i < 12 && 0 <= j < 5 ==> Occupant(classes, room, i, j) != Some(k)
    ensures forall i, j :: 0 <= i < 12 && 0 <= j < 5 && Layout(classes, room)[i].cells[j].Entry? ==>
      Layout(classes, room)[i].cells[j].room == room
  {
    forall i, j | 0 <= i < 12 && 0 <= j < 5 && Layout(classes, room)[i].cells[j].Entry?
      ensures Layout(classes, room)[i].cells[j].room == room
    {
      CellIsOccupant(classes, room, i, j);
    }
  }

  /** With the filter "all", which class fills a cell depends only on the days
      and start times of the classes, never on their rooms. */
  lemma {:induction false} AllRoomsIgnoresRoomNames(classes: seq<ClassRow>, others: seq<ClassRow>, day: string, h: nat)
    requires |others| == |classes|
    requires forall k :: 0 <= k < |classes| ==>
      others[k].day == classes[k].day && others[k].startTime == classes[k].startTime
    ensures FirstMatch(classes, day, h, AllRooms) == FirstMatch(others, day, h, AllRooms)
  {
    if classes != [] {
      AllRoomsIgnoresRoomNames(classes[1..], others[1..], day, h);
    }
  }

  /** Selecting room `room` shows what the filter "all" shows of the classes of
      that room alone. */
  lemma {:induction false} RoomFilterIsSublist(classes: seq<ClassRow>, room: string, day: string, h: nat)
    requires room != AllRooms
    ensures CellAt(classes, day, h, room) == CellAt(InRoom(classes, room), day, h, AllRooms)
  {
    if classes != [] {
      var c, rest := classes[0], classes[1..];
      RoomFilterIsSublist(rest, room, day, h);
      var sub := InRoom(classes, room);
      if c.roomName == room {
        assert sub == [c] + InRoom(rest, room);
        if !Matches(c, day, h, room) {
          CellSkipsHead(classes, day, h, room);
          CellSkipsHead(sub, day, h, AllRooms);
          assert sub[1..] == InRoom(rest, room);
        }
      } else {
        CellSkipsHead(classes, day, h, room);
      }
    }
  }

  /** A class on a weekday, starting in an hour of the grid, admitted by the
      filter and not preceded by another class matching the same cell, is the
      one shown in its cell. */
  lemma ShownWhenFirst(classes: seq<ClassRow>, filter: string, k: nat, j: nat, h: nat)
    requires k < |classes| && j < 5 && classes[k].day == Weekdays[j] && Admits(filter, classes[k])
    requires StartHour(classes[k].startTime) == Some(h) && FirstHour <= h <= LastHour
    requires forall m :: 0 <= m < k ==> !Matches(classes[m], Weekdays[j], h, filter)
    ensures Layout(classes, filter)[h - FirstHour].cells[j] == CellOf(classes[k])
  {
    CellSelectsFirstMatch(classes, filter, h - FirstHour, j);
  }
}
