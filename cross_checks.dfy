/** How the backend's tables and the dashboard's timetable fit together: the
    dashboard lays out exactly the rows `GET /api/classes` returns, in the
    table's order. */
module CrossChecks {
  import opened Records
  import opened Calendar
  import opened Timetable
  import opened Backend

  const Algebra: ClassRow := ClassRow(1, "C1", "Algebra", "T1", "A", "Monday", "09:00", "10:00")

  /** "09:00" and "09:30" are both read as hour 9. */
  lemma NineOClock()
    ensures StartHour("09:00") == Some(9) && StartHour("09:30") == Some(9)
  {
    StartHourOfDigits("09", ":00");
    StartHourOfDigits("09", ":30");
    assert "09:00" == "09" + ":00";
    assert "09:30" == "09" + ":30";
    assert DecimalValue("09") == 9 by {
      assert "09"[..1] == "0";
      assert DecimalValue("0") == 0 by { assert "0"[..0] == []; }
    }
  }

  /** With a single class, a cell shows it exactly when it matches the cell. */
  lemma SingletonCell(c: ClassRow, filter: string, i: nat, j: nat)
    requires i < 12 && j < 5
    ensures Layout([c], filter)[i].cells[j] ==
      if Matches(c, Weekdays[j], FirstHour + i, filter) then CellOf(c) else Empty
  {
    CellIsOccupant([c], filter, i, j);
  }

  /** One class on Monday at 09:00, filter "all": the Monday cell of the 9:00
      row shows it, and every other cell is empty. */
  lemma SingleMondayClass()
    ensures Layout([Algebra], AllRooms)[2].cells[0] == Entry("Algebra", "A", 1)
    ensures forall i, j :: 0 <= i < 12 && 0 <= j < 5 && (i, j) != (2, 0) ==>
      Layout([Algebra], AllRooms)[i].cells[j] == Empty
  {
    NineOClock();
    SingletonCell(Algebra, AllRooms, 2, 0);
    forall i, j | 0 <= i < 12 && 0 <= j < 5 && (i, j) != (2, 0)
      ensures Layout([Algebra], AllRooms)[i].cells[j] == Empty
    {
      SingletonCell(Algebra, AllRooms, i, j);
      if j != 0 {
        assert Weekdays[j] != "Monday";
      } else {
        assert FirstHour + i != 9;
      }
    }
  }

  /** A class preceded in the table by another on the same day, at the same
      hour and in a room the filter admits, is shown in no cell. */
  lemma EarlierTwinHides(rows: seq<ClassRow>, m: nat, k: nat, filter: string)
    requires m < k < |rows|
    requires rows[m].day == rows[k].day && StartHour(rows[m].startTime) == StartHour(rows[k].startTime)
    requires Admits(filter, rows[m])
    ensures forall i, j :: 0 <= i < 12 && 0 <= j < 5 ==> Occupant(rows, filter, i, j) != Some(k)
  {
    forall i, j | 0 <= i < 12 && 0 <= j < 5 ensures Occupant(rows, filter, i, j) != Some(k) {
      if Occupant(rows, filter, i, j) == Some(k) {
        assert Matches(rows[m], Weekdays[j], FirstHour + i, filter);
        assert false;
      }
    }
  }

  /** Two classes in room A on Monday, at "09:00" and at "09:30": the backend
      accepts the second, since the start times differ as text, yet both fall in
      the 9:00 row, so the Monday cell of that row shows only the first and the
      second is shown nowhere. */
  lemma HiddenDoubleBooking()
    ensures var second := ClassItem("C2", "Physics", "T2", "A", "Monday", "09:30", "10:30");
      !Conflict([Algebra], second) &&
      SlotsDistinct([Algebra, StoredClass(second, 2)]) &&
      Layout([Algebra, StoredClass(second, 2)], "A")[2].cells[0] == CellOf(Algebra) &&
      forall i, j :: 0 <= i < 12 && 0 <= j < 5 ==> Occupant([Algebra, StoredClass(second, 2)], "A", i, j) != Some(1)
  {
    var second := ClassItem("C2", "Physics", "T2", "A", "Monday", "09:30", "10:30");
    var rows := [Algebra, StoredClass(second, 2)];
    assert SlotOf(Algebra).startTime[3] != RequestedSlot(second).startTime[3];
    InsertKeepsSlotsDistinct([Algebra], second, 2);
    NineOClock();
    CellIsOccupant(rows, "A", 2, 0);
    EarlierTwinHides(rows, 0, 1, "A");
  }

  /** Adding a class (as `AddClass` does, at the end of the table) never moves
      the class shown in an occupied cell; an empty cell that the new class
      matches shows the new class. */
  lemma {:induction false} AppendKeepsShownClass(rows: seq<ClassRow>, x: ClassRow, day: string, h: nat, filter: string)
    ensures FirstMatch(rows, day, h, filter).Some? ==>
      FirstMatch(rows + [x], day, h, filter) == FirstMatch(rows, day, h, filter)
    ensures FirstMatch(rows, day, h, filter).None? ==>
      FirstMatch(rows + [x], day, h, filter) == if Matches(x, day, h, filter) then Some(|rows|) else None
  {
    if rows != [] {
      AppendKeepsShownClass(rows[1..], x, day, h, filter);
      assert (rows + [x])[1..] == rows[1..] + [x];
    }
  }

  /** After `DELETE /api/classes/{id}`, no cell of the timetable offers a class with that id. */
  lemma DeletedClassNotShown(rows: seq<ClassRow>, id: int, filter: string)
    ensures forall i, j :: 0 <= i < 12 && 0 <= j < 5 && Layout(WithoutId(rows, id), filter)[i].cells[j].Entry? ==>
      Layout(WithoutId(rows, id), filter)[i].cells[j].id != id
  {
    var rest := WithoutId(rows, id);
    forall i, j | 0 <= i < 12 && 0 <= j < 5 && Layout(rest, filter)[i].cells[j].Entry?
      ensures Layout(rest, filter)[i].cells[j].id != id
    {
      CellIsOccupant(rest, filter, i, j);
      var k := Occupant(rest, filter, i, j).value;
      assert rest[k] in rest;
    }
  }
}
