# Mess attendance record store

A Dafny model of the record-keeping core of a small Streamlit app
(`t.py`) that tracks students' meal attendance in a dining hall. The app
keeps two CSV files:

- the **student roster** (`students.csv`, columns `ID,Name`), and
- the **attendance log** (`mess_attendance.csv`, columns `ID,Name,Meal,Date,Time`).

Both files are checked and, when missing, unreadable or wrongly headed,
reset to an empty table (`ensure_students_file`, `ensure_attendance_file`,
called at t.py:36-37). Those calls sit at the top level of the Streamlit
script, which re-runs from the top on every interaction, so the check
precedes every menu action, not only the first. The menu then offers four actions: add a student,
search a student by ID (showing their attendance figures) and mark them
present for Breakfast or Lunch, view today's attendance grouped by student,
and delete a student together with all of their attendance records.

The model treats each file as a header plus a sequence of rows
(`Tables.Table`). The actions that change the files are methods of the class
`Store.MessStore`, which holds both tables. The queries (search by ID, the
per-student figures, today's summary) are functions over the rows, with
lemmas about them. Modules:

- `Text`: Python's `str.strip()` with no argument.
- `Clock`: the date and time of a marking, and `strftime("%H:%M:%S")` with its inverse.
- `Tables`: the header check with its reset policy. Also the row selections `df[df[c] == v]`,
  `df[df[c] != v]` and `match.iloc[0]`, written once for any row type and column.
- `Records`: roster and log rows, the ID assigned on add, lookup by ID, and the per-student figures.
- `Summary`: today's summary, grouped by ID.
- `Store`: the class `MessStore` and its operations.
- `Scenario`: a client that runs the store through one day, from missing files to an ID handed
  out twice. It proves what a caller can conclude from the contracts alone.

Two behaviours of the code are modelled as the code has them:

- **IDs are reused.** A new ID is one more than the largest ID on the roster
  *as it is now* (t.py:54). After the student with the largest ID is deleted, that ID can be handed out again (`Records.NextIdAfterDeletingMax`,
  and `Scenario.Reuse` for a concrete run).
- **Summary order is ascending ID.** pandas `groupby` sorts its keys by
  default (t.py:112). The Name on each line is that of the group's first row
  in file order (t.py:114).

## Model

| member | source | states |
|---|---|---|
| `Tables.EnsureColumns` | t.py:13-34 | a table whose file is readable and whose header is exactly the expected one is kept unchanged; any other table becomes an empty table with exactly the expected header, and the reset is reported |
| `Tables.EnsureColumnsIdempotent` | t.py:18-21 | running the header check on its own result never resets, so checking twice is the same as checking once |
| `Store.MessStore.EnsureStudentsFile` | t.py:13-22 | the roster afterwards has header `ID,Name`; it is reset to empty exactly when it was missing, unreadable or wrongly headed, and kept otherwise |
| `Store.MessStore.EnsureAttendanceFile` | t.py:24-34 | the log afterwards has header `ID,Name,Meal,Date,Time`; it is reset to empty exactly when it was missing, unreadable or wrongly headed, and kept otherwise |
| `Store.MessStore.Startup` | t.py:36-37 | the two checks in order, as every run of the script begins: afterwards the store is valid (`Valid()`: both files readable and exactly headed, the header test `Tables.WellFormed` of t.py:18 and 30), each file is reset exactly when it was malformed and kept otherwise, and both reset flags are reported |
| `Text.Strip` | t.py:47 | the trimmed name is empty exactly when every character is Python whitespace (`Text.IsSpace`: the code points `str.isspace` accepts); otherwise it starts and ends with a non-whitespace character |
| `Text.StripIsSlice` | t.py:55 | trimming removes only whitespace, and only at the two ends: the result is the slice between the leading and trailing whitespace |
| `Text.StripIdempotent` | t.py:51-55 | trimming a trimmed name changes nothing, so a stored name blocks the same name typed again with different surrounding whitespace |
| `Records.MaxId` | t.py:54 | the largest roster ID: carried by some row, and no row has a larger one |
| `Records.NextId` | t.py:54 | the new ID is 1 on an empty roster; otherwise it is above every roster ID and the ID just below it is taken, i.e. max + 1 |
| `Records.NextIdAfterAdd` | t.py:54-56 | after a successful add the next ID is exactly one higher, so successive adds from an empty roster hand out 1, 2, 3, … |
| `Records.AddKeepsIdsDistinct` | t.py:54-56 | appending a row with the next ID keeps roster IDs pairwise distinct |
| `Records.NextIdAfterDeletingMax` | t.py:54 | with positive IDs, once the rows with the largest ID are removed the next ID handed out is at most that ID: IDs are not reserved |
| `Store.MessStore.AddStudent` | t.py:46-56 | a name blank after trimming is rejected; a trimmed name already in the Name column (`Records.NameTaken`, the `in … .values` test of t.py:51) is rejected; in both cases the roster is unchanged. Otherwise exactly one row (max + 1 or 1, trimmed name) is appended at the end and earlier rows are untouched. The new ID is above every existing ID, and distinct roster IDs stay distinct |
| `Tables.FirstIndex` | t.py:69-72 | the position of the first row whose column equals the value, or none exactly when no row has it |
| `Records.Lookup` | t.py:67-72 | search by ID returns the first roster row with that ID, or not-found exactly when no roster row has it |
| `Tables.Matching` | t.py:77-80 | the boolean-mask selection `df[df[c] == v]` (also t.py:69 and 109): its own contract bounds the result by the input; which rows it keeps is stated by `Tables.MatchingMembers`, their order by `Tables.MatchingAppend` |
| `Tables.MatchingMembers` | t.py:77 | a boolean-mask selection holds exactly the rows whose column equals the value |
| `Records.StatsFor` | t.py:76-80 | total = the number of log rows with the ID (`Records.RecordsOf`, t.py:77), breakfast/lunch = those rows with that Meal (`Records.MealRecordsOf`, t.py:79-80); all three are zero exactly when no row has the ID, and breakfast + lunch never exceeds the total |
| `Tables.MatchingTwoValues` | t.py:79-80 | when every row's column holds one of two distinct values, the two selections together count every row |
| `Records.StatsAddUp` | t.py:77-84 | when every Meal in the log is Breakfast or Lunch (the only values the program writes), total = breakfast + lunch |
| `Tables.MatchingAppend` | t.py:94 | selecting from an appended log selects from each part, in order |
| `Records.StatsAfterAppend` | t.py:86-94 | appending a record raises its student's total by one and the count of its meal by one; every other student's figures are unchanged |
| `Clock.TwoDigits` | t.py:92 | an hour, minute or second is written as exactly two decimal digits that spell the number, zero-padded |
| `Clock.FormatTime` | t.py:92 | the Time text has eight characters: digits, with `:` at positions 2 and 5 |
| `Clock.ParseFormatTime` | t.py:92 | the Time text reads back as the hour, minute and second of the marking |
| `Clock.FormatParseTime` | t.py:92 | every text that reads back as a valid time is the one written for it, so the written form is exactly zero-padded `HH:MM:SS` |
| `Clock.FormatTimeInjective` | t.py:92 | distinct times are written as distinct texts |
| `Store.MessStore.MarkAttendance` | t.py:65-94 | when the ID is on the roster, exactly one record is appended: the ID, the roster name, the meal, the date and the `HH:MM:SS` time. There is no duplicate check. The student's total and the marked meal's count each grow by one, and a log whose meals are all Breakfast or Lunch stays so. When the ID is not on the roster, nothing changes |
| `Summary.InsertKey` | t.py:112 | inserting a key into a sorted list of distinct keys keeps it sorted and distinct and adds exactly that key |
| `Summary.GroupKeys` | t.py:112 | the group keys are the distinct IDs of the rows, in strictly ascending order |
| `Summary.TodaySummary` | t.py:106-117 | the summary uses only rows dated on the reference day (`Summary.OnDate`, t.py:109), and each line is the aggregation `Summary.GroupRow` of t.py:112-116. It has exactly one line per distinct ID among them, in strictly ascending ID order, and it is empty exactly when no row is dated that day. Each line's total is at least 1, and its counts are that ID's total, Breakfast and Lunch counts over the day's rows |
| `Summary.GroupOfDay` | t.py:109-114 | grouping the day's rows by ID selects the same rows, in the same order, as selecting the log's rows by date and ID together |
| `Tables.FirstIndexIsFirstMatch` | t.py:114 | the first row of a selection is the row at the first matching position |
| `Summary.SummaryNameIsFirst` | t.py:114 | each line's Name is the Name of the first row in file order with that date and that ID |
| `Summary.SummaryAddsUp` | t.py:113-116 | when every Meal is Breakfast or Lunch, each line's total is its Breakfast count plus its Lunch count |
| `Tables.Without` | t.py:141-145 | the boolean-mask removal `df[df[c] != v]`: its own contract bounds the result by the input; which rows it keeps is stated by `Tables.WithoutMembers` and `Tables.WithoutMultiset`, their order by `Tables.WithoutAppend` |
| `Tables.WithoutMembers` | t.py:141-145 | removal keeps exactly the rows whose column differs from the value |
| `Tables.WithoutMultiset` | t.py:141-145 | removal drops every copy of each matching row and keeps every copy of each other row |
| `Tables.WithoutAppend` | t.py:141-145 | removal distributes over concatenation, so the kept rows stay in their original relative order |
| `Tables.MatchingWithoutSplit` | t.py:145 | each row is either removed or kept, never both |
| `Tables.MatchingWithout` | t.py:145 | after removing one key's rows, that key has no rows and every other key has exactly the rows it had |
| `Tables.WithoutKeepsDistinct` | t.py:141 | removing rows keeps distinct keys distinct |
| `Records.StatsAfterRemoval` | t.py:144-146 | after the cascade the deleted ID's figures are all zero, and every other ID's figures are unchanged |
| `Store.MessStore.DeleteStudent` | t.py:130-146 | when the ID is on the roster, every roster row and every log row with that ID is removed and all other rows stay in order. Afterwards the ID is not found and its figures are zero, other IDs' figures are unchanged, and distinct roster IDs stay distinct. When the ID is not on the roster, nothing changes |

## Left out

- Presentation: the Streamlit sidebar, text inputs, buttons, checkboxes, radio, warnings and success or error messages. The reset warnings and the operation outcomes are returned as values instead.
- File I/O: `os.path.exists`, `pd.read_csv` and `to_csv`. Each file is a `Tables.Table`. A missing, empty or unparsable file is the `readable == false` flag, which the header check resets (t.py:14-22, 25-34). The later reads at t.py:50, 68, 76, 133 and 144 are assumed to succeed, since the header check has just run. A failure there is not modelled: the add block does not catch it, and in search and delete pandas' parse errors (subclasses of `ValueError`) are caught and shown as "ID must be a number". Writing back is the assignment of the table's new rows.
- The clock: `datetime.now()` becomes the `Clock.Timestamp` parameter of `Store.MessStore.MarkAttendance`. The sub-second part is not modelled, because `%H:%M:%S` drops it.
- The textual form of the Date column (`YYYY-MM-DD`) and its parsing by `pd.to_datetime` in the summary. Dates are `Clock.Date` values compared for equality. The summary's "Unable to read attendance file" path (a date that fails to parse) is therefore not modelled.
- Parsing the ID text with `int()` (whitespace, signs, underscores) and its "ID must be a number" error. IDs arrive as integers.
- pandas type inference and missing values. When every Name in the file looks like a number, the column is read back as numbers and a typed name no longer matches it at t.py:51. NaN cells are skipped by `max`, by `first` and by `groupby`. Roster IDs are unbounded integers, so the 64-bit overflow of `max + 1` is not modelled.
- `Records.StatsAddUp`: total = breakfast + lunch is proved only for logs whose Meal column holds only Breakfast or Lunch. A hand-edited file can hold other values. The program itself writes only those two, and `Store.MessStore.MarkAttendance` preserves the property.
- Concurrent access to the two files by several processes: there is no locking in the code.
