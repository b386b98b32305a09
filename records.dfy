/** The records shared by the scheduling backend and the dashboard: the request
    bodies that create classrooms and classes, and the rows of the two tables
    (which the dashboard receives unchanged as JSON objects). */
module Records {

  datatype Option<+T> = None | Some(value: T)

  /** Body of a create-classroom request. */
  datatype Classroom = Classroom(name: string, capacity: int, equipment: string)

  /** A row of the `classrooms` table; `id` is the table's integer primary key. */
  datatype RoomRow = RoomRow(id: int, name: string, capacity: int, equipment: string)

  /** Body of a create-class request (no id: the table assigns one). */
  datatype ClassItem = ClassItem(
    classId: string, name: string, teacher: string,
    roomName: string, day: string, startTime: string, endTime: string)

  /** A row of the `classes` table; `id` is the table's integer primary key. */
  datatype ClassRow = ClassRow(
    id: int, classId: string, name: string, teacher: string,
    roomName: string, day: string, startTime: string, endTime: string)

  /** The row stored for a class item under primary key `id`. */
  function StoredClass(c: ClassItem, id: int): ClassRow {
    ClassRow(id, c.classId, c.name, c.teacher, c.roomName, c.day, c.startTime, c.endTime)
  }

  /** The row stored for a classroom under primary key `id`. */
  function StoredRoom(r: Classroom, id: int): RoomRow {
    RoomRow(id, r.name, r.capacity, r.equipment)
  }
}
