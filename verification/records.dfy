/**
 * The rows of the two files and the queries over a single table: the student
 * roster (`students.csv`, columns ID and Name) and the attendance log
 * (`mess_attendance.csv`, columns ID, Name, Meal, Date and Time).
 */
module Records {
  import opened Optional
  import opened Clock
  import opened Tables

  /** The roster file's header. */
  const StudentColumns: seq<string> := ["ID", "Name"]

  /** The attendance file's header. */
  const AttendanceColumns: seq<string> := ["ID", "Name", "Meal", "Date", "Time"]

  /** A roster row. */
  datatype Student = Student(id: int, name: string)

  /** The two meals the operator can choose when marking. */
  datatype Meal = Breakfast | Lunch

  /** An attendance row. `name` is the roster name at the time of marking;
      `meal` is the column's text, which the program only ever writes as
      "Breakfast" or "Lunch" but does not check when it reads the file. */
  datatype Record = Record(id: int, name: string, meal: string, date: Date, time: string)

  function StudentId(s: Student): int { s.id }
  function RecordId(r: Record): int { r.id }
  function RecordMeal(r: Record): string { r.meal }
  function RecordDate(r: Record): Date { r.date }

  /** The text a meal is written as in the Meal column. */
  function MealName(m: Meal): string {
    match m
    case Breakfast => "Breakfast"
    case Lunch => "Lunch"
  }

  /** The largest ID on the roster (`students_df["ID"].max()`). */
  function MaxId(rows: seq<Student>): (m: int)
    requires rows != []
    ensures exists i :: 0 <= i < |rows| && rows[i].id == m
    ensures forall i :: 0 <= i < |rows| ==> rows[i].id <= m
  {
    if |rows| == 1 then rows[0].id
    else
      var rest := MaxId(rows[1..]);
      assert forall i :: 1 <= i < |rows| ==> rows[i] == rows[1..][i - 1];
      if rows[0].id < rest then rest else rows[0].id
  }

  /** The ID the add operation gives a new student: 1 on an empty roster,
      otherwise one more than the largest ID. It is above every ID on the
      roster, and (on a non-empty roster) the ID just below it is taken. */
  function NextId(rows: seq<Student>): (n: int)
    ensures forall i :: 0 <= i < |rows| ==> rows[i].id < n
    ensures rows == [] ==> n == 1
    ensures rows != [] ==> exists i :: 0 <= i < |rows| && rows[i].id == n - 1
  {
    if rows == [] then 1 else MaxId(rows) + 1
  }

  /** Some roster row already carries exactly this name
      (`name in students_df["Name"].values`). */
  predicate NameTaken(rows: seq<Student>, name: string) {
    exists s :: s in rows && s.name == name
  }

  /** The search by ID: the first roster row with that ID (`match.iloc[0]`),
      or `None` when there is none. */
  function Lookup(rows: seq<Student>, id: int): (r: Option<Student>)
    ensures r.None? <==> forall s :: s in rows ==> s.id != id
    ensures r.Some? ==> r.value in rows && r.value.id == id
    ensures r.Some? ==> exists i :: 0 <= i < |rows| && rows[i] == r.value
                         && forall j :: 0 <= j < i ==> rows[j].id != id
  {
    match FirstIndex(rows, StudentId, id)
    case None => None
    case Some(i) => Some(rows[i])
  }

  /** Adding a new student makes the next ID exactly one higher, so a run of
      successful adds hands out consecutive IDs. */
  lemma NextIdAfterAdd(rows: seq<Student>, name: string)
    ensures NextId(rows + [Student(NextId(rows), name)]) == NextId(rows) + 1
  {
    var rows' := rows + [Student(NextId(rows), name)];
    var n := NextId(rows');
    assert rows'[|rows|].id == NextId(rows);
  }

  /** Appending a student with the next ID keeps roster IDs distinct. */
  lemma AddKeepsIdsDistinct(rows: seq<Student>, name: string)
    requires KeysDistinct(rows, StudentId)
    ensures KeysDistinct(rows + [Student(NextId(rows), name)], StudentId)
  {
    var rows' := rows + [Student(NextId(rows), name)];
    forall i, j | 0 <= i < j < |rows'| ensures StudentId(rows'[i]) != StudentId(rows'[j]) {
      if j < |rows| {
        assert rows'[i] == rows[i] && rows'[j] == rows[j];
      } else {
        assert rows'[i] == rows[i];
      }
    }
  }

  /** IDs are not reserved: once the student with the largest ID is deleted,
      the next ID handed out is no larger than the deleted one, so an ID can
      be given to a second student. */
  lemma {:induction false} NextIdAfterDeletingMax(rows: seq<Student>)
    requires rows != []
    requires forall s :: s in rows ==> s.id >= 1
    ensures NextId(Without(rows, StudentId, MaxId(rows))) <= MaxId(rows)
  {
    var m := MaxId(rows);
    var rest := Without(rows, StudentId, m);
    WithoutMembers(rows, StudentId, m);
    forall s | s in rest ensures s.id < m {
      assert s in rows;
      var j :| 0 <= j < |rows| && rows[j] == s;
    }
    if rest != [] {
      var i :| 0 <= i < |rest| && rest[i].id == NextId(rest) - 1;
      assert rest[i] in rest;
    } else {
      var k :| 0 <= k < |rows| && rows[k].id == m;
      assert rows[k] in rows;
    }
  }

  /** The per-student figures shown on search: total markings and markings per meal. */
  datatype Stats = Stats(total: nat, breakfast: nat, lunch: nat)

  /** The rows of one student (`attendance_df[attendance_df["ID"] == id]`). */
  function RecordsOf(log: seq<Record>, id: int): seq<Record> {
    Matching(log, RecordId, id)
  }

  /** The rows of one student for one meal. */
  function MealRecordsOf(log: seq<Record>, id: int, meal: Meal): seq<Record> {
    Matching(RecordsOf(log, id), RecordMeal, MealName(meal))
  }

  /** The search statistics (t.py:77-80): the number of the student's rows and
      of those rows whose Meal is Breakfast and Lunch. All are zero exactly
      when the log has no row with the ID, and the meal counts never exceed
      the total. */
  function StatsFor(log: seq<Record>, id: int): (s: Stats)
    ensures s.total == 0 <==> forall r :: r in log ==> r.id != id
    ensures s.total == 0 ==> s == Stats(0, 0, 0)
    ensures s.breakfast + s.lunch <= s.total
  {
    var mine := RecordsOf(log, id);
    var s := Stats(|mine|, |MealRecordsOf(log, id, Breakfast)|, |MealRecordsOf(log, id, Lunch)|);
    MealCountsBounded(mine);
    MatchingMembers(log, RecordId, id);
    assert (exists r :: r in log && r.id == id) ==> mine != [] by {
      if r :| r in log && r.id == id { assert r in mine; }
    }
    assert mine != [] ==> mine[0] in mine;
    s
  }

  /** Breakfast and Lunch rows are disjoint selections, so together they are at most all rows. */
  lemma {:induction false} MealCountsBounded(rows: seq<Record>)
    ensures |Matching(rows, RecordMeal, "Breakfast")| + |Matching(rows, RecordMeal, "Lunch")| <= |rows|
  {
    if rows != [] {
      MealCountsBounded(rows[1..]);
    }
  }

  /** Every row's Meal is one the program writes. */
  predicate MealsWellFormed(log: seq<Record>) {
    forall r :: r in log ==> r.meal == "Breakfast" || r.meal == "Lunch"
  }

  /** On a log whose meals are all Breakfast or Lunch, the total is the sum of
      the two meal counts. */
  lemma StatsAddUp(log: seq<Record>, id: int)
    requires MealsWellFormed(log)
    ensures StatsFor(log, id).total == StatsFor(log, id).breakfast + StatsFor(log, id).lunch
  {
    var mine := RecordsOf(log, id);
    MatchingMembers(log, RecordId, id);
    MatchingTwoValues(mine, RecordMeal, "Breakfast", "Lunch");
  }

  /** Appending a row (marking attendance) raises the marked student's total
      and the marked meal's count by one and changes nothing else; every other
      student's figures stay the same. */
  lemma StatsAfterAppend(log: seq<Record>, r: Record, id: int)
    ensures StatsFor(log + [r], id) ==
      if r.id != id then StatsFor(log, id)
      else
        var s := StatsFor(log, id);
        Stats(s.total + 1,
              s.breakfast + (if r.meal == "Breakfast" then 1 else 0),
              s.lunch + (if r.meal == "Lunch" then 1 else 0))
  {
    MatchingAppend(log, [r], RecordId, id);
    var mine := RecordsOf(log, id);
    MatchingAppend(mine, Matching([r], RecordId, id), RecordMeal, "Breakfast");
    MatchingAppend(mine, Matching([r], RecordId, id), RecordMeal, "Lunch");
  }

  /** After the student's rows are removed all of their figures are zero, and
      every other student's figures are unchanged. */
  lemma StatsAfterRemoval(log: seq<Record>, id: int, other: int)
    ensures StatsFor(Without(log, RecordId, id), id) == Stats(0, 0, 0)
    ensures other != id ==> StatsFor(Without(log, RecordId, id), other) == StatsFor(log, other)
  {
    MatchingWithout(log, RecordId, id, id);
    MatchingWithout(log, RecordId, id, other);
  }
}
