/**
 * Today's attendance view (t.py:106-117): the log's rows of one date, grouped
 * by student ID. pandas `groupby` sorts its keys, so the groups come out in
 * ascending ID order; each group reports its row count, the Name of its first
 * row in file order, and its Breakfast and Lunch counts.
 */
module Summary {
  import opened Clock
  import opened Tables
  import opened Records

  /** One line of the summary table (`reset_index()` puts ID first). */
  datatype SummaryRow = SummaryRow(id: int, total: nat, name: string, breakfast: nat, lunch: nat)

  /** The rows marked on `d` (`df[df["Date"] == today]`). */
  function OnDate(log: seq<Record>, d: Date): seq<Record> {
    Matching(log, RecordDate, d)
  }

  predicate StrictlyIncreasing(ks: seq<int>) {
    forall i, j :: 0 <= i < j < |ks| ==> ks[i] < ks[j]
  }

  /** Adds `k` to a sorted list of distinct keys, keeping it sorted and distinct. */
  function InsertKey(ks: seq<int>, k: int): (r: seq<int>)
    requires StrictlyIncreasing(ks)
    ensures StrictlyIncreasing(r)
    ensures forall x :: x in r <==> x in ks || x == k
  {
    if ks == [] then [k]
    else if k < ks[0] then [k] + ks
    else if k == ks[0] then ks
    else
      var rest := InsertKey(ks[1..], k);
      assert forall x :: x in ks[1..] ==> ks[0] < x by {
        forall x | x in ks[1..] ensures ks[0] < x {
          var j :| 0 <= j < |ks[1..]| && ks[1..][j] == x;
          assert ks[j + 1] == x;
        }
      }
      assert forall j :: 0 <= j < |rest| ==> ks[0] < rest[j] by {
        forall j | 0 <= j < |rest| ensures ks[0] < rest[j] { assert rest[j] in rest; }
      }
      [ks[0]] + rest
  }

  /** The group keys: the distinct IDs of `rows`, in ascending order. */
  function GroupKeys(rows: seq<Record>): (ks: seq<int>)
    ensures StrictlyIncreasing(ks)
    ensures forall k :: k in ks <==> exists r :: r in rows && r.id == k
  {
    if rows == [] then []
    else
      var ks := InsertKey(GroupKeys(rows[1..]), rows[0].id);
      assert forall r :: r in rows <==> r == rows[0] || r in rows[1..] by {
        assert rows == [rows[0]] + rows[1..];
      }
      ks
  }

  /** The summary line of the group of `id` among `today`'s rows: the same
      three counts the search shows, taken over that day, and the Name of the
      group's first row. */
  function GroupRow(today: seq<Record>, id: int): SummaryRow
    requires RecordsOf(today, id) != []
  {
    var s := StatsFor(today, id);
    SummaryRow(id, s.total, RecordsOf(today, id)[0].name, s.breakfast, s.lunch)
  }

  /** The ID column of a summary. */
  function Ids(rows: seq<SummaryRow>): (ks: seq<int>)
    ensures |ks| == |rows| && forall i :: 0 <= i < |rows| ==> ks[i] == rows[i].id
  {
    seq(|rows|, i requires 0 <= i < |rows| => rows[i].id)
  }

  /** The summary for date `d`: one line per distinct ID marked that day, in
      ascending ID order, each the `GroupRow` of that ID; empty exactly when
      nothing was marked on `d`. */
  function TodaySummary(log: seq<Record>, d: Date): (rows: seq<SummaryRow>)
    ensures rows == [] <==> forall r :: r in log ==> r.date != d
    ensures StrictlyIncreasing(Ids(rows))
    ensures forall k :: k in Ids(rows) <==> exists r :: r in log && r.date == d && r.id == k
    ensures forall i :: 0 <= i < |rows| ==> rows[i].total >= 1
    ensures forall i :: 0 <= i < |rows| ==>
              RecordsOf(OnDate(log, d), rows[i].id) != [] && rows[i] == GroupRow(OnDate(log, d), rows[i].id)
  {
    var today := OnDate(log, d);
    var ks := GroupKeys(today);
    KeysHaveRecords(today, ks);
    DayKeys(log, d);
    var rows := seq(|ks|, i requires 0 <= i < |ks| => GroupRow(today, ks[i]));
    assert Ids(rows) == ks;
    assert ks == [] ==> forall r :: r in log ==> r.date != d by {
      if r :| r in log && r.date == d { assert r.id in ks; }
    }
    assert ks != [] ==> ks[0] in ks;
    rows
  }

  /** Every group key has at least one row. */
  lemma KeysHaveRecords(today: seq<Record>, ks: seq<int>)
    requires ks == GroupKeys(today)
    ensures forall i :: 0 <= i < |ks| ==> RecordsOf(today, ks[i]) != []
  {
    forall i | 0 <= i < |ks| ensures RecordsOf(today, ks[i]) != [] {
      MatchingMembers(today, RecordId, ks[i]);
      assert ks[i] in ks;
      var r :| r in today && r.id == ks[i];
      assert r in RecordsOf(today, ks[i]);
    }
  }

  /** The keys of a day's groups are the IDs marked on that day. */
  lemma DayKeys(log: seq<Record>, d: Date)
    ensures forall k :: k in GroupKeys(OnDate(log, d)) <==> exists r :: r in log && r.date == d && r.id == k
  {
    var today := OnDate(log, d);
    MatchingMembers(log, RecordDate, d);
  }

  /** A row's date and ID together: the pair the summary filters and groups on. */
  function DayAndId(r: Record): (Date, int) { (r.date, r.id) }

  /** Grouping the day's rows by ID selects the same rows, in the same order,
      as selecting the log's rows by date and ID at once. */
  lemma {:induction false} GroupOfDay(log: seq<Record>, d: Date, id: int)
    ensures RecordsOf(OnDate(log, d), id) == Matching(log, DayAndId, (d, id))
  {
    if log != [] {
      GroupOfDay(log[1..], d, id);
      var head := Matching([log[0]], RecordDate, d);
      assert OnDate(log, d) == head + OnDate(log[1..], d);
      MatchingAppend(head, OnDate(log[1..], d), RecordId, id);
    }
  }

  /** Each summary line carries the Name of the first row, in file order,
      marked on that date for that ID (pandas' "first" aggregation). */
  lemma SummaryNameIsFirst(log: seq<Record>, d: Date, i: nat)
    requires i < |TodaySummary(log, d)|
    ensures exists j :: 0 <= j < |log| && DayAndId(log[j]) == (d, TodaySummary(log, d)[i].id)
                        && log[j].name == TodaySummary(log, d)[i].name
                        && forall j' :: 0 <= j' < j ==> DayAndId(log[j']) != (d, TodaySummary(log, d)[i].id)
  {
    var row := TodaySummary(log, d)[i];
    var group := RecordsOf(OnDate(log, d), row.id);
    GroupOfDay(log, d, row.id);
    MatchingMembers(log, DayAndId, (d, row.id));
    assert group[0] in group;
    assert FirstIndex(log, DayAndId, (d, row.id)).Some? by {
      var j :| 0 <= j < |log| && log[j] == group[0];
      assert DayAndId(log[j]) == (d, row.id);
    }
    FirstIndexIsFirstMatch(log, DayAndId, (d, row.id));
  }

  /** When every Meal in the log is Breakfast or Lunch, each summary line's
      total is its Breakfast count plus its Lunch count. */
  lemma SummaryAddsUp(log: seq<Record>, d: Date, i: nat)
    requires MealsWellFormed(log)
    requires i < |TodaySummary(log, d)|
    ensures TodaySummary(log, d)[i].total == TodaySummary(log, d)[i].breakfast + TodaySummary(log, d)[i].lunch
  {
    var today := OnDate(log, d);
    MatchingMembers(log, RecordDate, d);
    assert MealsWellFormed(today);
    StatsAddUp(today, TodaySummary(log, d)[i].id);
  }
}
