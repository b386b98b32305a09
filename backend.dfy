/** The scheduling backend: two tables, `classrooms` and `classes`, and the
    request handlers that read them, add to them and delete from them. The
    tables are kept as sequences of rows in the order the rows were inserted. */
module Backend {
  import opened Records

  /** What a handler answers: a value, or an HTTP error status with its detail text. */
  datatype Reply<+T> = Ok(value: T) | HttpError(status: int, detail: string)

  const SlotConflict: Reply<ClassItem> := HttpError(409, "Time slot conflict in this room")
  const RoomExists: Reply<Classroom> := HttpError(400, "Room already exists")
  const DeletedMessage: string := "Deleted"

  /** The three fields the conflict check compares: room, day and start time. */
  datatype Slot = Slot(roomName: string, day: string, startTime: string)

  function SlotOf(r: ClassRow): Slot {
    Slot(r.roomName, r.day, r.startTime)
  }

  function RequestedSlot(c: ClassItem): Slot {
    Slot(c.roomName, c.day, c.startTime)
  }

  /** The conflict query: some row has the requested room, day and start time,
      each compared as exact text. */
  predicate Conflict(rows: seq<ClassRow>, c: ClassItem) {
    exists k :: 0 <= k < |rows| && SlotOf(rows[k]) == RequestedSlot(c)
  }

  /** No two rows of `classes` share room, day and start time. */
  predicate SlotsDistinct(rows: seq<ClassRow>) {
    forall i, j :: 0 <= i < j < |rows| ==> SlotOf(rows[i]) != SlotOf(rows[j])
  }

  /** No two rows of `classes` share an id (the primary key). */
  predicate ClassIdsDistinct(rows: seq<ClassRow>) {
    forall i, j :: 0 <= i < j < |rows| ==> rows[i].id != rows[j].id
  }

  /** No two rows of `classrooms` share an id (the primary key). */
  predicate RoomIdsDistinct(rooms: seq<RoomRow>) {
    forall i, j :: 0 <= i < j < |rooms| ==> rooms[i].id != rooms[j].id
  }

  /** No two rows of `classrooms` share a name (the `UNIQUE` column). */
  predicate RoomNamesDistinct(rooms: seq<RoomRow>) {
    forall i, j :: 0 <= i < j < |rooms| ==> rooms[i].name != rooms[j].name
  }

  predicate RoomNameTaken(rooms: seq<RoomRow>, name: string) {
    exists k :: 0 <= k < |rooms| && rooms[k].name == name
  }

  /** `id` is a positive key that no row of `classes` uses. */
  predicate FreshClassId(rows: seq<ClassRow>, id: int) {
    id > 0 && forall k :: 0 <= k < |rows| ==> rows[k].id != id
  }

  /** `id` is a positive key that no row of `classrooms` uses. */
  predicate FreshRoomId(rooms: seq<RoomRow>, id: int) {
    id > 0 && forall k :: 0 <= k < |rooms| ==> rooms[k].id != id
  }

  /** A positive number above every one of `ids`. */
  function Above(ids: seq<int>): (r: int)
    ensures r > 0 && forall k :: 0 <= k < |ids| ==> ids[k] < r
  {
    if ids == [] then 1
    else var m := Above(ids[1..]); if ids[0] < m then m else ids[0] + 1
  }

  /** A key for a new row of `classes`. */
  function NewClassId(rows: seq<ClassRow>): (id: int)
    ensures FreshClassId(rows, id)
  {
    var ids := seq(|rows|, k requires 0 <= k < |rows| => rows[k].id);
    assert forall k :: 0 <= k < |rows| ==> ids[k] == rows[k].id;
    Above(ids)
  }

  /** A key for a new row of `classrooms`. */
  function NewRoomId(rooms: seq<RoomRow>): (id: int)
    ensures FreshRoomId(rooms, id)
  {
    var ids := seq(|rooms|, k requires 0 <= k < |rooms| => rooms[k].id);
    assert forall k :: 0 <= k < |rooms| ==> ids[k] == rooms[k].id;
    Above(ids)
  }

  /** The rows of `classes` left by `DELETE FROM classes WHERE id = ?`, in their order. */
  function WithoutId(rows: seq<ClassRow>, id: int): (r: seq<ClassRow>)
    ensures forall row :: row in r <==> row in rows && row.id != id
    ensures |r| <= |rows|
  {
    if rows == [] then []
    else if rows[0].id == id then WithoutId(rows[1..], id)
    else [rows[0]] + WithoutId(rows[1..], id)
  }

  /** Appending a row whose slot is not yet taken keeps the slots distinct. */
  lemma InsertKeepsSlotsDistinct(rows: seq<ClassRow>, c: ClassItem, id: int)
    requires SlotsDistinct(rows) && !Conflict(rows, c)
    ensures SlotsDistinct(rows + [StoredClass(c, id)])
  {
    var rows' := rows + [StoredClass(c, id)];
    forall i, j | 0 <= i < j < |rows'| ensures SlotOf(rows'[i]) != SlotOf(rows'[j]) {
      if j == |rows| {
        assert SlotOf(rows'[j]) == RequestedSlot(c);
        assert rows'[i] == rows[i];
      }
    }
  }

  /** The conflict check reads the room, the day and the start time and
      nothing else: the class id, name, teacher and end time play no part. */
  lemma ConflictReadsSlotOnly(rows: seq<ClassRow>, a: ClassItem, b: ClassItem)
    requires a.roomName == b.roomName && a.day == b.day && a.startTime == b.startTime
    ensures Conflict(rows, a) <==> Conflict(rows, b)
  {
  }

  /** Overlapping times are not a conflict: a class from 10:00 to 11:00 is
      accepted in a room that holds one from 09:00 to 11:00 on the same day. */
  lemma OverlapIsNoConflict()
    ensures !Conflict([ClassRow(1, "C1", "Algebra", "T1", "R101", "Monday", "09:00", "11:00")],
                      ClassItem("C2", "Physics", "T2", "R101", "Monday", "10:00", "11:00"))
  {
    var row := ClassRow(1, "C1", "Algebra", "T1", "R101", "Monday", "09:00", "11:00");
    var item := ClassItem("C2", "Physics", "T2", "R101", "Monday", "10:00", "11:00");
    assert SlotOf(row).startTime[1] != RequestedSlot(item).startTime[1];
  }

  /** Deleting an id that no row has leaves the table as it was. */
  lemma {:induction false} DeleteAbsentId(rows: seq<ClassRow>, id: int)
    requires forall k :: 0 <= k < |rows| ==> rows[k].id != id
    ensures WithoutId(rows, id) == rows
  {
    if rows != [] {
      DeleteAbsentId(rows[1..], id);
    }
  }

  /** With distinct ids, deleting the id of row `k` removes row `k` and keeps
      every other row, in order. */
  lemma {:induction false} DeleteRemovesOneRow(rows: seq<ClassRow>, k: nat)
    requires ClassIdsDistinct(rows) && k < |rows|
    ensures WithoutId(rows, rows[k].id) == rows[..k] + rows[k + 1..]
  {
    var id := rows[k].id;
    if k == 0 {
      DeleteAbsentId(rows[1..], id);
    } else {
      DeleteRemovesOneRow(rows[1..], k - 1);
      assert rows[1..][k - 1] == rows[k];
      assert rows[..k] == [rows[0]] + rows[1..][..k - 1];
      assert rows[k + 1..] == rows[1..][k..];
    }
  }

  /** The slots are distinct exactly when the first row's slot recurs nowhere
      after it and the remaining rows' slots are distinct. */
  lemma SlotsDistinctCons(x: ClassRow, rest: seq<ClassRow>)
    ensures SlotsDistinct([x] + rest) <==>
      (forall row :: row in rest ==> SlotOf(row) != SlotOf(x)) && SlotsDistinct(rest)
  {
    var r := [x] + rest;
    assert forall m :: 0 <= m < |rest| ==> rest[m] == r[m + 1];
    if SlotsDistinct(r) {
      forall row | row in rest ensures SlotOf(row) != SlotOf(x) {
        var m :| 0 <= m < |rest| && rest[m] == row;
        assert r[0] == x && r[m + 1] == row;
      }
    }
    if (forall row :: row in rest ==> SlotOf(row) != SlotOf(x)) && SlotsDistinct(rest) {
      forall i, j | 0 <= i < j < |r| ensures SlotOf(r[i]) != SlotOf(r[j]) {
        assert r[j] == rest[j - 1] && r[j] in rest;
        if i > 0 {
          assert r[i] == rest[i - 1];
        }
      }
    }
  }

  /** The ids are distinct exactly when the first row's id recurs nowhere after
      it and the remaining rows' ids are distinct. */
  lemma IdsDistinctCons(x: ClassRow, rest: seq<ClassRow>)
    ensures ClassIdsDistinct([x] + rest) <==>
      (forall row :: row in rest ==> row.id != x.id) && ClassIdsDistinct(rest)
  {
    var r := [x] + rest;
    assert forall m :: 0 <= m < |rest| ==> rest[m] == r[m + 1];
    if ClassIdsDistinct(r) {
      forall row | row in rest ensures row.id != x.id {
        var m :| 0 <= m < |rest| && rest[m] == row;
        assert r[0] == x && r[m + 1] == row;
      }
    }
    if (forall row :: row in rest ==> row.id != x.id) && ClassIdsDistinct(rest) {
      forall i, j | 0 <= i < j < |r| ensures r[i].id != r[j].id {
        assert r[j] == rest[j - 1] && r[j] in rest;
        if i > 0 {
          assert r[i] == rest[i - 1];
        }
      }
    }
  }

  /** Deleting rows keeps the slots of the remaining rows distinct. */
  lemma {:induction false} DeleteKeepsSlotsDistinct(rows: seq<ClassRow>, id: int)
    requires SlotsDistinct(rows)
    ensures SlotsDistinct(WithoutId(rows, id))
  {
    if rows != [] {
      var rest := rows[1..];
      assert rows == [rows[0]] + rest;
      SlotsDistinctCons(rows[0], rest);
      DeleteKeepsSlotsDistinct(rest, id);
      if rows[0].id != id {
        SlotsDistinctCons(rows[0], WithoutId(rest, id));
      }
    }
  }

  /** Deleting rows keeps the ids of the remaining rows distinct. */
  lemma {:induction false} DeleteKeepsIdsDistinct(rows: seq<ClassRow>, id: int)
    requires ClassIdsDistinct(rows)
    ensures ClassIdsDistinct(WithoutId(rows, id))
  {
    if rows != [] {
      var rest := rows[1..];
      assert rows == [rows[0]] + rest;
      IdsDistinctCons(rows[0], rest);
      DeleteKeepsIdsDistinct(rest, id);
      if rows[0].id != id {
        IdsDistinctCons(rows[0], WithoutId(rest, id));
      }
    }
  }

  /** The two tables. `Valid` holds what the database itself enforces: primary
      keys are distinct in both tables and classroom names are unique. That no
      two classes share a slot is kept by `AddClass` only, so it is stated
      apart (`SlotsDistinct`). */
  class Store {
    var classrooms: seq<RoomRow>
    var classes: seq<ClassRow>

    ghost predicate Valid()
      reads this
    {
      RoomIdsDistinct(classrooms) && RoomNamesDistinct(classrooms) && ClassIdsDistinct(classes)
    }

    /** Both tables start out empty. */
    constructor ()
      ensures Valid() && classrooms == [] && classes == []
    {
      classrooms, classes := [], [];
    }

    /** `GET /api/dashboard-stats`: the number of rows of each table. */
    method Stats() returns (totalClasses: nat, totalClassrooms: nat)
      ensures totalClasses == |classes| && totalClassrooms == |classrooms|
    {
      totalClasses, totalClassrooms := |classes|, |classrooms|;
    }

    /** `GET /api/classrooms`: every row of `classrooms`. */
    method GetRooms() returns (rows: seq<RoomRow>)
      ensures rows == classrooms
    {
      rows := classrooms;
    }

    /** `GET /api/classes`: every row of `classes`. */
    method GetClasses() returns (rows: seq<ClassRow>)
      ensures rows == classes
    {
      rows := classes;
    }

    /** `POST /api/classrooms`: a name already in the table is refused with 400
        and nothing changes; otherwise one row is added under a fresh key and
        the classroom is echoed back. */
    method AddRoom(r: Classroom) returns (reply: Reply<Classroom>)
      requires Valid()
      modifies this
      ensures Valid() && classes == old(classes)
      ensures reply == if RoomNameTaken(old(classrooms), r.name) then RoomExists else Ok(r)
      ensures reply.HttpError? ==> classrooms == old(classrooms)
      ensures reply.Ok? ==>
        exists id :: FreshRoomId(old(classrooms), id) && classrooms == old(classrooms) + [StoredRoom(r, id)]
    {
      if RoomNameTaken(classrooms, r.name) {
        return RoomExists;
      }
      var id := NewRoomId(classrooms);
      classrooms := classrooms + [StoredRoom(r, id)];
      return Ok(r);
    }

    /** `POST /api/classes`: a class whose room, day and start time equal those
        of an existing row is refused with 409 and nothing changes; otherwise
        one row is added under a fresh key and the class is echoed back. */
    method AddClass(c: ClassItem) returns (reply: Reply<ClassItem>)
      requires Valid()
      modifies this
      ensures Valid() && classrooms == old(classrooms)
      ensures reply == if Conflict(old(classes), c) then SlotConflict else Ok(c)
      ensures reply.HttpError? ==> classes == old(classes)
      ensures reply.Ok? ==>
        exists id :: FreshClassId(old(classes), id) && classes == old(classes) + [StoredClass(c, id)]
      ensures SlotsDistinct(old(classes)) ==> SlotsDistinct(classes)
    {
      if Conflict(classes, c) {
        return SlotConflict;
      }
      var id := NewClassId(classes);
      if SlotsDistinct(classes) {
        InsertKeepsSlotsDistinct(classes, c, id);
      }
      classes := classes + [StoredClass(c, id)];
      return Ok(c);
    }

    /** `DELETE /api/classes/{id}`: removes the rows with that id, keeps every
        other row in order, and answers "Deleted" whether or not a row had it. */
    method DeleteClass(id: int) returns (msg: string)
      requires Valid()
      modifies this
      ensures Valid() && classrooms == old(classrooms)
      ensures classes == WithoutId(old(classes), id)
      ensures msg == DeletedMessage
      ensures SlotsDistinct(old(classes)) ==> SlotsDistinct(classes)
    {
      DeleteKeepsIdsDistinct(classes, id);
      if SlotsDistinct(classes) {
        DeleteKeepsSlotsDistinct(classes, id);
      }
      classes := WithoutId(classes, id);
      msg := DeletedMessage;
    }
  }
}
