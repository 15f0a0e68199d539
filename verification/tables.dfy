/**
 * A CSV file seen as a table: a column header and a sequence of rows. The
 * header check with its reset policy (t.py:13-34) and the row selections the
 * program makes with pandas boolean masks (`df[df[col] == v]`,
 * `df[df[col] != v]`, `match.iloc[0]`) are defined here once, for any row type
 * and any column, given as a function from a row to that column's value.
 */
module Tables {
  import opened Optional

  /** A loaded file. `readable` is false when the file is missing or cannot be
      parsed; `header` is its list of column names. */
  datatype Table<R> = Table(readable: bool, header: seq<string>, rows: seq<R>)

  /** The file exists, parses, and its columns are exactly `columns`, in order. */
  predicate WellFormed<R>(t: Table<R>, columns: seq<string>) {
    t.readable && t.header == columns
  }

  /** The outcome of the header check: the table afterwards and whether it was reset. */
  datatype Checked<R> = Checked(table: Table<R>, reset: bool)

  /** The header check of `ensure_students_file` / `ensure_attendance_file`:
      a well-formed table is kept as it is; anything else is replaced by an
      empty table with exactly the expected header, and a reset is reported. */
  function EnsureColumns<R>(t: Table<R>, columns: seq<string>): (c: Checked<R>)
    ensures WellFormed(c.table, columns)
    ensures c.reset <==> !WellFormed(t, columns)
    ensures !c.reset ==> c.table == t
    ensures c.reset ==> c.table.rows == []
  {
    if WellFormed(t, columns) then Checked(t, false) else Checked(Table(true, columns, []), true)
  }

  /** Checking twice is checking once: the second check never resets. */
  lemma EnsureColumnsIdempotent<R>(t: Table<R>, columns: seq<string>)
    ensures EnsureColumns(EnsureColumns(t, columns).table, columns)
            == Checked(EnsureColumns(t, columns).table, false)
  {
  }

  /** The rows whose `key` column equals `k`, in file order (`df[df[col] == k]`). */
  function Matching<R(!new), K(==)>(rows: seq<R>, key: R -> K, k: K): (r: seq<R>)
    ensures |r| <= |rows|
  {
    if rows == [] then []
    else (if key(rows[0]) == k then [rows[0]] else []) + Matching(rows[1..], key, k)
  }

  /** The rows whose `key` column differs from `k`, in file order (`df[df[col] != k]`). */
  function Without<R(!new), K(==)>(rows: seq<R>, key: R -> K, k: K): (r: seq<R>)
    ensures |r| <= |rows|
  {
    if rows == [] then []
    else (if key(rows[0]) != k then [rows[0]] else []) + Without(rows[1..], key, k)
  }

  /** The selection holds exactly the rows with key `k`. */
  lemma {:induction false} MatchingMembers<R(!new), K>(rows: seq<R>, key: R -> K, k: K)
    ensures forall x :: x in Matching(rows, key, k) <==> x in rows && key(x) == k
  {
    if rows != [] {
      MatchingMembers(rows[1..], key, k);
      assert rows == [rows[0]] + rows[1..];
    }
  }

  /** The removal keeps exactly the rows whose key is not `k`. */
  lemma {:induction false} WithoutMembers<R(!new), K>(rows: seq<R>, key: R -> K, k: K)
    ensures forall x :: x in Without(rows, key, k) <==> x in rows && key(x) != k
  {
    if rows != [] {
      WithoutMembers(rows[1..], key, k);
      assert rows == [rows[0]] + rows[1..];
    }
  }

  /** The position of the first row whose `key` column equals `k` (`match.iloc[0]`),
      or `None` when no row has it. */
  function FirstIndex<R, K(==)>(rows: seq<R>, key: R -> K, k: K): (r: Option<nat>)
    ensures r.None? <==> forall i :: 0 <= i < |rows| ==> key(rows[i]) != k
    ensures r.Some? ==> r.value < |rows| && key(rows[r.value]) == k
                        && forall i :: 0 <= i < r.value ==> key(rows[i]) != k
  {
    if rows == [] then None
    else if key(rows[0]) == k then Some(0)
    else match FirstIndex(rows[1..], key, k)
      case None => None
      case Some(i) => Some(i + 1)
  }

  /** The first of the matching rows is the row `FirstIndex` points at. */
  lemma {:induction false} FirstIndexIsFirstMatch<R(!new), K>(rows: seq<R>, key: R -> K, k: K)
    requires FirstIndex(rows, key, k).Some?
    ensures Matching(rows, key, k) != []
    ensures Matching(rows, key, k)[0] == rows[FirstIndex(rows, key, k).value]
  {
    if key(rows[0]) != k {
      FirstIndexIsFirstMatch(rows[1..], key, k);
    }
  }

  /** Selecting the key every row already has selects every row. */
  lemma {:induction false} MatchingAll<R(!new), K>(rows: seq<R>, key: R -> K, k: K)
    requires forall x :: x in rows ==> key(x) == k
    ensures Matching(rows, key, k) == rows
  {
    if rows != [] {
      assert forall x :: x in rows[1..] ==> x in rows;
      MatchingAll(rows[1..], key, k);
      assert rows == [rows[0]] + rows[1..];
    }
  }

  /** Filtering distributes over concatenation: rows keep their relative order. */
  lemma {:induction false} MatchingAppend<R(!new), K>(a: seq<R>, b: seq<R>, key: R -> K, k: K)
    ensures Matching(a + b, key, k) == Matching(a, key, k) + Matching(b, key, k)
  {
    if a != [] {
      assert (a + b)[1..] == a[1..] + b;
      MatchingAppend(a[1..], b, key, k);
    } else {
      assert a + b == b;
    }
  }

  /** Removal distributes over concatenation: the kept rows keep their relative order. */
  lemma {:induction false} WithoutAppend<R(!new), K>(a: seq<R>, b: seq<R>, key: R -> K, k: K)
    ensures Without(a + b, key, k) == Without(a, key, k) + Without(b, key, k)
  {
    if a != [] {
      assert (a + b)[1..] == a[1..] + b;
      WithoutAppend(a[1..], b, key, k);
    } else {
      assert a + b == b;
    }
  }

  /** Removal takes out every copy of each matching row and keeps every copy of
      each other row: nothing else is lost or duplicated. */
  lemma {:induction false} WithoutMultiset<R(!new), K>(rows: seq<R>, key: R -> K, k: K, x: R)
    ensures multiset(Without(rows, key, k))[x] == if key(x) == k then 0 else multiset(rows)[x]
  {
    if rows != [] {
      WithoutMultiset(rows[1..], key, k, x);
      assert rows == [rows[0]] + rows[1..];
    }
  }

  /** Every row is either matched or kept by the removal, never both. */
  lemma {:induction false} MatchingWithoutSplit<R(!new), K>(rows: seq<R>, key: R -> K, k: K)
    ensures |Matching(rows, key, k)| + |Without(rows, key, k)| == |rows|
  {
    if rows != [] {
      MatchingWithoutSplit(rows[1..], key, k);
    }
  }

  /** Removing rows with key `k` does not change which rows carry any other key. */
  lemma {:induction false} MatchingWithout<R(!new), K>(rows: seq<R>, key: R -> K, k: K, j: K)
    ensures Matching(Without(rows, key, k), key, j) == if j == k then [] else Matching(rows, key, j)
  {
    if rows != [] {
      MatchingWithout(rows[1..], key, k, j);
      var head := if key(rows[0]) != k then [rows[0]] else [];
      MatchingAppend(head, Without(rows[1..], key, k), key, j);
    }
  }

  /** When every row's key is one of two distinct values, the two selections
      together account for every row. */
  lemma {:induction false} MatchingTwoValues<R(!new), K>(rows: seq<R>, key: R -> K, a: K, b: K)
    requires a != b
    requires forall x :: x in rows ==> key(x) == a || key(x) == b
    ensures |Matching(rows, key, a)| + |Matching(rows, key, b)| == |rows|
  {
    if rows != [] {
      assert forall x :: x in rows[1..] ==> x in rows;
      MatchingTwoValues(rows[1..], key, a, b);
    }
  }

  /** No two rows share a key: the uniqueness a roster's IDs are meant to have. */
  predicate KeysDistinct<R, K(==)>(rows: seq<R>, key: R -> K) {
    forall i, j :: 0 <= i < j < |rows| ==> key(rows[i]) != key(rows[j])
  }

  /** Removing rows keeps distinct keys distinct. */
  lemma {:induction false} WithoutKeepsDistinct<R(!new), K>(rows: seq<R>, key: R -> K, k: K)
    requires KeysDistinct(rows, key)
    ensures KeysDistinct(Without(rows, key, k), key)
  {
    if rows != [] {
      WithoutKeepsDistinct(rows[1..], key, k);
      var rest := Without(rows[1..], key, k);
      WithoutMembers(rows[1..], key, k);
      assert forall x :: x in rows[1..] ==> key(x) != key(rows[0]) by {
        forall x | x in rows[1..] ensures key(x) != key(rows[0]) {
          var j :| 0 <= j < |rows[1..]| && rows[1..][j] == x;
          assert rows[j + 1] == x;
        }
      }
    }
  }
}
