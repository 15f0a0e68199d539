/**
 * Runs of the store, following the operator through one day from missing
 * files: what the contracts alone let a caller conclude.
 */
module Scenario {
  import opened Optional
  import opened Text
  import opened Clock
  import opened Tables
  import opened Records
  import opened Summary
  import opened Store

  /** The whole day, from missing files to an ID handed out a second time. */
  method OneDay() {
    var store := Opening();
    Registration(store);
    SecondStudent(store);
    Duplicate(store);
    Meals(store);
    Removal(store, Date(2024, 1, 1));
    Reuse(store);
  }

  /** Missing files are reset to empty, correctly headed tables. */
  method Opening() returns (store: MessStore)
    ensures fresh(store)
    ensures store.Valid() && store.students.rows == [] && store.attendance.rows == []
  {
    store := new MessStore.Load(Table(false, [], []), Table(false, [], []));
    var studentsReset, attendanceReset := store.Startup();
    assert studentsReset && attendanceReset;
  }

  /** A blank name is refused; the first student gets ID 1. */
  method Registration(store: MessStore)
    requires store.Valid() && store.students.rows == []
    modifies store`students
    ensures store.Valid() && store.students.rows == [Student(1, "Alice")]
  {
    var blank := store.AddStudent("   ");
    assert Blank("   ");
    assert blank == EmptyName;

    StripKeepsTrimmed("Alice");
    var alice := store.AddStudent("Alice");
    assert alice == Added(Student(1, "Alice"));
  }

  /** The second student gets ID 2. */
  method SecondStudent(store: MessStore)
    requires store.Valid() && store.students.rows == [Student(1, "Alice")]
    modifies store`students
    ensures store.Valid() && store.students.rows == [Student(1, "Alice"), Student(2, "Bob")]
  {
    SecondStudentFacts();
    var bob := store.AddStudent("Bob");
    assert bob == Added(Student(2, "Bob"));
  }

  /** The facts about the roster [Alice] that adding "Bob" depends on. */
  lemma SecondStudentFacts()
    ensures Strip("Bob") == "Bob" && Strip("Bob") != []
    ensures !NameTaken([Student(1, "Alice")], "Bob")
    ensures NextId([Student(1, "Alice")]) == 2
  {
    StripKeepsTrimmed("Bob");
    assert "Alice" != "Bob";
  }

  /** A name already on the roster is refused and the roster stays as it is. */
  method Duplicate(store: MessStore)
    requires store.Valid() && store.students.rows == [Student(1, "Alice"), Student(2, "Bob")]
    modifies store`students
    ensures store.Valid() && store.students.rows == [Student(1, "Alice"), Student(2, "Bob")]
  {
    StripKeepsTrimmed("Bob");
    assert store.students.rows[1] in store.students.rows;
    var again := store.AddStudent("Bob");
    assert again == DuplicateName;
  }

  /** Two markings of one student on one day, and the day's summary. */
  method Meals(store: MessStore)
    requires store.Valid()
    requires store.students.rows == [Student(1, "Alice"), Student(2, "Bob")]
    requires store.attendance.rows == []
    modifies store
    ensures store.Valid() && store.students.rows == old(store.students.rows)
    ensures forall r :: r in store.attendance.rows ==> r.id == 1
  {
    var day := Date(2024, 1, 1);
    var m1 := store.MarkAttendance(1, Breakfast, Timestamp(day, TimeOfDay(8, 0, 0)));
    assert StatsFor(store.attendance.rows, 1) == Stats(1, 1, 0);
    var m2 := store.MarkAttendance(1, Lunch, Timestamp(day, TimeOfDay(12, 0, 0)));
    assert StatsFor(store.attendance.rows, 1) == Stats(2, 1, 1);

    var log := store.attendance.rows;
    assert log == [m1.value, m2.value];
    var today := TodaySummary(log, day);
    OneStudentDay(log, day, 1);
    MatchingAll(log, RecordDate, day);
    MatchingAll(log, RecordId, 1);
    assert today == [SummaryRow(1, 2, "Alice", 1, 1)];
  }

  /** A day on which only one student was marked has a one-line summary. */
  lemma OneStudentDay(log: seq<Record>, d: Date, id: int)
    requires log != []
    requires forall r :: r in log ==> r.date == d && r.id == id
    ensures |TodaySummary(log, d)| == 1 && TodaySummary(log, d)[0].id == id
  {
    var today := TodaySummary(log, d);
    var ks := Ids(today);
    assert log[0] in log;
    assert forall k :: k in ks ==> k == id;
    FirstTwo(ks);
    assert ks[0] in ks;
  }

  /** The first two keys of a sorted key list, when there are two. Stated as
      an implication so that callers need not enter the impossible branch. */
  lemma FirstTwo(ks: seq<int>)
    ensures |ks| >= 2 && StrictlyIncreasing(ks) ==> ks[0] < ks[1] && ks[0] in ks && ks[1] in ks
  {
  }

  /** Deleting a student empties their figures and the day's summary. */
  method Removal(store: MessStore, day: Date)
    requires store.Valid()
    requires store.students.rows == [Student(1, "Alice"), Student(2, "Bob")]
    requires forall r :: r in store.attendance.rows ==> r.id == 1
    modifies store
    ensures store.Valid() && store.students.rows == [Student(2, "Bob")]
  {
    ghost var log := store.attendance.rows;
    var gone := store.DeleteStudent(1);
    WithoutMembers(log, RecordId, 1);
    assert store.students.rows[0] in store.students.rows;
    assert gone == Some(Student(1, "Alice"));
    assert Without([Student(1, "Alice"), Student(2, "Bob")], StudentId, 1) == [Student(2, "Bob")];
    assert StatsFor(store.attendance.rows, 1) == Stats(0, 0, 0);
    assert TodaySummary(store.attendance.rows, day) == [];
  }

  /** IDs are not reserved: once the last student is deleted, the roster is empty
      and the next student gets ID 1 again. */
  method Reuse(store: MessStore)
    requires store.Valid()
    requires store.students.rows == [Student(2, "Bob")]
    modifies store
  {
    var gone := store.DeleteStudent(2);
    assert Without([Student(2, "Bob")], StudentId, 2) == [];
    FreshStart(store);
  }

  /** On an empty roster the next student gets ID 1. */
  method FreshStart(store: MessStore)
    requires store.Valid() && store.students.rows == []
    modifies store
  {
    StripKeepsTrimmed("Carol");
    var carol := store.AddStudent("Carol");
    assert carol == Added(Student(1, "Carol"));
  }
}
