/**
 * The two CSV files as one in-memory store, and the operations of the menu
 * that change them: the header checks that precede every menu action, adding a student,
 * marking attendance and deleting a student with all of their records.
 * Queries (search, statistics, today's summary) are the functions of
 * `Records` and `Summary` over the store's rows.
 */
module Store {
  import opened Optional
  import opened Text
  import opened Clock
  import opened Tables
  import opened Records

  /** What the add operation reports: the two rejections, or the new row. */
  datatype AddOutcome = EmptyName | DuplicateName | Added(student: Student)

  class MessStore {
    /** `students.csv` */
    var students: Table<Student>
    /** `mess_attendance.csv` */
    var attendance: Table<Record>

    /** Both files exist, parse, and carry exactly their expected headers.
        The app is a script that re-runs from the top on every interaction, so
        the two header checks (`Startup`) run again before each menu action and
        every action starts from a valid store. */
    predicate Valid()
      reads this
    {
      WellFormed(students, StudentColumns) && WellFormed(attendance, AttendanceColumns)
    }

    /** The files as found on disk, possibly missing or malformed. */
    constructor Load(studentFile: Table<Student>, attendanceFile: Table<Record>)
      ensures students == studentFile && attendance == attendanceFile
    {
      students := studentFile;
      attendance := attendanceFile;
    }

    /** `ensure_students_file`: keeps a well-formed roster, otherwise resets it
        to an empty table with header `ID,Name` and reports the reset. */
    method EnsureStudentsFile() returns (reset: bool)
      modifies this`students
      ensures WellFormed(students, StudentColumns)
      ensures reset <==> !WellFormed(old(students), StudentColumns)
      ensures !reset ==> students == old(students)
      ensures reset ==> students == Table(true, StudentColumns, [])
    {
      var checked := EnsureColumns(students, StudentColumns);
      students := checked.table;
      reset := checked.reset;
    }

    /** `ensure_attendance_file`: the same check for the header
        `ID,Name,Meal,Date,Time`. */
    method EnsureAttendanceFile() returns (reset: bool)
      modifies this`attendance
      ensures WellFormed(attendance, AttendanceColumns)
      ensures reset <==> !WellFormed(old(attendance), AttendanceColumns)
      ensures !reset ==> attendance == old(attendance)
      ensures reset ==> attendance == Table(true, AttendanceColumns, [])
    {
      var checked := EnsureColumns(attendance, AttendanceColumns);
      attendance := checked.table;
      reset := checked.reset;
    }

    /** The two header checks, in order, as the top of the script runs them
        before every menu action: afterwards the store is valid, and each file
        is reset exactly when it was malformed. */
    method Startup() returns (studentsReset: bool, attendanceReset: bool)
      modifies this
      ensures Valid()
      ensures studentsReset <==> !WellFormed(old(students), StudentColumns)
      ensures attendanceReset <==> !WellFormed(old(attendance), AttendanceColumns)
      ensures students == (if studentsReset then Table(true, StudentColumns, []) else old(students))
      ensures attendance == (if attendanceReset then Table(true, AttendanceColumns, []) else old(attendance))
    {
      studentsReset := EnsureStudentsFile();
      attendanceReset := EnsureAttendanceFile();
    }

    /** Add Student: a name that is blank once trimmed, or whose trimmed form is
        already a roster name, is rejected and nothing changes; otherwise the
        row (next ID, trimmed name) is appended at the end of the roster. The
        new ID is above every existing ID, so distinct IDs stay distinct. */
    method AddStudent(name: string) returns (outcome: AddOutcome)
      requires Valid()
      modifies this`students
      ensures Valid()
      ensures outcome == EmptyName <==> Strip(name) == []
      ensures outcome == DuplicateName <==> Strip(name) != [] && NameTaken(old(students.rows), Strip(name))
      ensures !outcome.Added? ==> students == old(students)
      ensures outcome.Added? ==>
                outcome.student == Student(NextId(old(students.rows)), Strip(name))
                && students.rows == old(students.rows) + [outcome.student]
      ensures outcome.Added? ==> forall s :: s in old(students.rows) ==> s.id < outcome.student.id
      ensures KeysDistinct(old(students.rows), StudentId) ==> KeysDistinct(students.rows, StudentId)
    {
      var trimmed := Strip(name);
      if trimmed == [] {
        return EmptyName;
      }
      if NameTaken(students.rows, trimmed) {
        return DuplicateName;
      }
      var student := Student(NextId(students.rows), trimmed);
      if KeysDistinct(students.rows, StudentId) {
        AddKeepsIdsDistinct(students.rows, trimmed);
      }
      students := students.(rows := students.rows + [student]);
      outcome := Added(student);
    }

    /** Mark Attendance: when the ID is on the roster, appends one record with
        that ID, the roster name, the meal, the date and the zero-padded
        `HH:MM:SS` time, without any duplicate check; when it is not, nothing
        changes. The student's total and the meal's count each grow by one. */
    method MarkAttendance(id: int, meal: Meal, now: Timestamp) returns (marked: Option<Record>)
      requires Valid() && now.time.Valid()
      modifies this`attendance
      ensures Valid()
      ensures marked.None? <==> Lookup(old(students.rows), id).None?
      ensures marked.None? ==> attendance == old(attendance)
      ensures marked.Some? ==>
                marked.value == Record(id, Lookup(old(students.rows), id).value.name, MealName(meal),
                                       now.date, FormatTime(now.time))
                && attendance.rows == old(attendance.rows) + [marked.value]
      ensures marked.Some? ==>
                var before := StatsFor(old(attendance.rows), id);
                StatsFor(attendance.rows, id) ==
                  if meal == Breakfast then Stats(before.total + 1, before.breakfast + 1, before.lunch)
                  else Stats(before.total + 1, before.breakfast, before.lunch + 1)
      ensures MealsWellFormed(old(attendance.rows)) ==> MealsWellFormed(attendance.rows)
    {
      var found := Lookup(students.rows, id);
      if found.None? {
        return None;
      }
      var record := Record(id, found.value.name, MealName(meal), now.date, FormatTime(now.time));
      StatsAfterAppend(attendance.rows, record, id);
      attendance := attendance.(rows := attendance.rows + [record]);
      marked := Some(record);
    }

    /** Delete Student: when the ID is on the roster, removes every roster row
        and every attendance row with that ID, keeping all other rows in their
        order; afterwards the ID is not found and its figures are zero. When
        the ID is not on the roster, nothing changes. */
    method DeleteStudent(id: int) returns (deleted: Option<Student>)
      requires Valid()
      modifies this
      ensures Valid()
      ensures deleted == Lookup(old(students.rows), id)
      ensures deleted.None? ==> students == old(students) && attendance == old(attendance)
      ensures deleted.Some? ==>
                students.rows == Without(old(students.rows), StudentId, id)
                && attendance.rows == Without(old(attendance.rows), RecordId, id)
      ensures deleted.Some? ==> Lookup(students.rows, id).None? && StatsFor(attendance.rows, id) == Stats(0, 0, 0)
      ensures forall other :: other != id ==> StatsFor(attendance.rows, other) == StatsFor(old(attendance.rows), other)
      ensures KeysDistinct(old(students.rows), StudentId) ==> KeysDistinct(students.rows, StudentId)
    {
      deleted := Lookup(students.rows, id);
      if deleted.None? {
        return;
      }
      forall other | other != id
        ensures StatsFor(Without(attendance.rows, RecordId, id), other) == StatsFor(attendance.rows, other)
      {
        StatsAfterRemoval(attendance.rows, id, other);
      }
      StatsAfterRemoval(attendance.rows, id, id);
      WithoutMembers(students.rows, StudentId, id);
      if KeysDistinct(students.rows, StudentId) {
        WithoutKeepsDistinct(students.rows, StudentId, id);
      }
      students := students.(rows := Without(students.rows, StudentId, id));
      attendance := attendance.(rows := Without(attendance.rows, RecordId, id));
    }
  }
}
