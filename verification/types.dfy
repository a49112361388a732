/** The record shapes of the dashboard's shared type declarations
    (src/types/index.ts). Optional properties are `Option`s; ids, names
    and ISO date strings are strings. */
module Types {
  import opened Base

  /** `User.role`: exactly one of "admin" and "teacher". */
  datatype Role = AdminRole | TeacherRole

  datatype User = User(id: string, name: string, email: string, role: Role, password: string)

  /** A group: member students and associated classes, with optional
      creation and update stamps. */
  datatype Group = Group(
    id: string,
    name: string,
    description: Option<string>,
    studentIds: seq<string>,
    classIds: seq<string>,
    createdAt: Option<string>,
    updatedAt: Option<string>)

  /** A student carries at most one group reference: `groupId` is a single
      optional field. */
  datatype Student = Student(id: string, name: string, email: string, classId: string, groupId: Option<string>)

  /** A class; a missing `groupIds` means "no groups yet". */
  datatype Class = Class(id: string, name: string, teacherId: string, description: Option<string>, groupIds: Option<seq<string>>)

  datatype Teacher = Teacher(id: string, name: string, email: string)

  /** `AttendanceStatus` has exactly three values. */
  datatype AttendanceStatus = Present | Absent | Late

  /** An attendance mark as the teacher hook submits it. */
  datatype Attendance = Attendance(
    id: string,
    studentId: string,
    groupId: string,
    classId: string,
    date: string,
    status: AttendanceStatus,
    notes: Option<string>)

  /** One (student, date, status) observation; `date` is `YYYY-MM-DD`. */
  datatype AttendanceRecord = AttendanceRecord(
    id: string,
    studentId: string,
    classId: string,
    date: string,
    status: AttendanceStatus,
    notes: Option<string>)

  datatype AttendanceStats = AttendanceStats(total: nat, present: nat, absent: nat, late: nat)

  /** JavaScript truthiness of `student.groupId`: set and not the empty string. */
  predicate HasGroup(s: Student) {
    s.groupId.Some? && s.groupId.value != ""
  }

  /** `cls.groupIds || []`. */
  function GroupIdsOf(c: Class): seq<string> {
    c.groupIds.GetOr([])
  }
}
