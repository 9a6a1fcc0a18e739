/** The register's store: the `student` and `attendance` tables created at
    intex.php:30-54 and the SQL statements the pages run against them.

    student(roll VARCHAR(20) PRIMARY KEY, name VARCHAR(100) NOT NULL) is kept as a
    sequence of rows in primary-key (roll) order, so `SELECT ... ORDER BY roll`
    reads it as it is; attendance(roll, date, status CHAR(2), PRIMARY KEY (roll,
    date), FOREIGN KEY (roll) REFERENCES student(roll) ON DELETE CASCADE) is a
    finite map from (roll, date) to a status. Each statement is a function from
    the old tables to the new tables or to the error the server reports (strict
    SQL mode); the `Database` class holds the tables and runs the statements in
    place. */
module Schema {
  import opened PhpText

  /** Column widths: roll VARCHAR(20), name VARCHAR(100). */
  const RollWidth: nat := 20
  const NameWidth: nat := 100

  datatype Option<T> = None | Some(value: T)

  datatype Result<T> = Ok(value: T) | Err(error: DbError)

  // ---------------------------------------------------------------------------
  // Rows and keys
  // ---------------------------------------------------------------------------

  /** The four attendance codes: p, a, hm, he. */
  datatype Status = Present | Absent | HalfDayMorning | HalfDayEvening

  /** The code stored in the status column. */
  function Code(st: Status): (r: string)
    ensures 1 <= |r| <= 2
  {
    match st
    case Present => "p"
    case Absent => "a"
    case HalfDayMorning => "hm"
    case HalfDayEvening => "he"
  }

  /** `in_array($v, ['p', 'a', 'hm', 'he'])`, returning the status it names. */
  function ParseStatus(s: string): (r: Option<Status>)
    ensures r.Some? <==> (s == "p" || s == "a" || s == "hm" || s == "he")
    ensures r.Some? ==> Code(r.value) == s
  {
    if s == "p" then Some(Present)
    else if s == "a" then Some(Absent)
    else if s == "hm" then Some(HalfDayMorning)
    else if s == "he" then Some(HalfDayEvening)
    else None
  }

  /** Every stored code parses back to the status it came from. */
  lemma ParseStatusOfCode(st: Status)
    ensures ParseStatus(Code(st)) == Some(st)
  {
  }

  datatype Student = Student(roll: string, name: string)

  /** Primary key of an attendance row. */
  datatype Key = Key(roll: string, date: string)

  datatype Tables = Tables(students: seq<Student>, attendance: map<Key, Status>)

  /** The errors the server raises for the statements the pages run. */
  datatype DbError =
    | DuplicateEntry      // 1062: primary key already present
    | DataTooLong(column: string)  // 1406: value wider than its VARCHAR column
    | ForeignKeyFails     // 1452: attendance row for a roll not in student
    | StoreFailure(message: string)  // any other failure of the server

  /** The server's error number, as `$e->getCode()` reports it. */
  function ErrorCode(e: DbError): (r: nat)
    ensures r == 1062 <==> e.DuplicateEntry?
  {
    match e
    case DuplicateEntry => 1062
    case DataTooLong(_) => 1406
    case ForeignKeyFails => 1452
    case StoreFailure(_) => 2006
  }

  /** The text of the error, as `$e->getMessage()` / `$stmt->error` report it. */
  function ErrorMessage(e: DbError): string {
    match e
    case DuplicateEntry => "Duplicate entry for key 'PRIMARY'"
    case DataTooLong(column) => "Data too long for column '" + column + "' at row 1"
    case ForeignKeyFails => "Cannot add or update a child row: a foreign key constraint fails"
    case StoreFailure(message) => message
  }

  // ---------------------------------------------------------------------------
  // The roster in primary-key order
  // ---------------------------------------------------------------------------

  function Rolls(rows: seq<Student>): set<string> {
    set s | s in rows :: s.roll
  }

  predicate SortedByRoll(rows: seq<Student>) {
    forall i, j :: 0 <= i < j < |rows| ==> StrLess(rows[i].roll, rows[j].roll)
  }

  predicate FitsColumns(s: Student) {
    |s.roll| <= RollWidth && |s.name| <= NameWidth
  }

  /** Integrity of the two tables: the roster is in strict roll order (so rolls are
      unique), every row fits its columns, and every attendance row references a
      rostered roll (the foreign key). */
  predicate TablesValid(t: Tables) {
    && SortedByRoll(t.students)
    && (forall s :: s in t.students ==> FitsColumns(s))
    && (forall k :: k in t.attendance ==> k.roll in Rolls(t.students))
  }

  /** Rolls in strict order are pairwise different. */
  lemma SortedRollsDistinct(rows: seq<Student>, i: int, j: int)
    requires SortedByRoll(rows) && 0 <= i < |rows| && 0 <= j < |rows| && i != j
    ensures rows[i].roll != rows[j].roll
  {
    if i < j { StrLessIrreflexive(rows[i].roll); } else { StrLessIrreflexive(rows[j].roll); }
  }

  /** A row that precedes every row of a sorted sequence may be put in front. */
  lemma SortedCons(s: Student, rows: seq<Student>)
    requires SortedByRoll(rows)
    requires forall x :: x in rows ==> StrLess(s.roll, x.roll)
    ensures SortedByRoll([s] + rows)
  {
    var r := [s] + rows;
    forall i, j | 0 <= i < j < |r| ensures StrLess(r[i].roll, r[j].roll) {
      if i == 0 { assert r[j] == rows[j - 1]; } else { assert r[i] == rows[i - 1] && r[j] == rows[j - 1]; }
    }
  }

  lemma SortedTail(rows: seq<Student>)
    requires SortedByRoll(rows) && rows != []
    ensures SortedByRoll(rows[1..])
    ensures forall x :: x in rows[1..] ==> StrLess(rows[0].roll, x.roll)
  {
    var tail := rows[1..];
    forall i, j | 0 <= i < j < |tail| ensures StrLess(tail[i].roll, tail[j].roll) {
      assert tail[i] == rows[i + 1] && tail[j] == rows[j + 1];
    }
    forall x | x in tail ensures StrLess(rows[0].roll, x.roll) {
      var j :| 0 <= j < |tail| && tail[j] == x;
      assert rows[j + 1] == x;
    }
  }

  /** A roll before the first row of a sorted roster is before every row. */
  lemma BeforeFirstIsBeforeAll(roll: string, rows: seq<Student>)
    requires SortedByRoll(rows) && rows != [] && StrLess(roll, rows[0].roll)
    ensures forall x :: x in rows ==> StrLess(roll, x.roll)
  {
    forall x | x in rows ensures StrLess(roll, x.roll) {
      var j :| 0 <= j < |rows| && rows[j] == x;
      if j > 0 { StrLessTransitive(roll, rows[0].roll, x.roll); }
    }
  }

  lemma RollsOfMultiset(a: seq<Student>, b: seq<Student>, s: Student)
    requires multiset(a) == multiset(b) + multiset{s}
    ensures Rolls(a) == Rolls(b) + {s.roll}
    ensures forall x :: x in a <==> x in b || x == s
  {
    forall x ensures x in a <==> x in b || x == s {
      assert x in a <==> x in multiset(a);
      assert x in b <==> x in multiset(b);
    }
  }

  /** Where INSERT puts a new row in the primary-key index. */
  function InsertByRoll(rows: seq<Student>, s: Student): (r: seq<Student>)
    requires SortedByRoll(rows) && s.roll !in Rolls(rows)
    ensures SortedByRoll(r)
    ensures multiset(r) == multiset(rows) + multiset{s}
  {
    if rows == [] then [s]
    else if StrLess(s.roll, rows[0].roll) then
      BeforeFirstIsBeforeAll(s.roll, rows);
      SortedCons(s, rows);
      [s] + rows
    else
      SortedTail(rows);
      assert rows == [rows[0]] + rows[1..];
      var r' := InsertByRoll(rows[1..], s);
      StrLessTrichotomy(s.roll, rows[0].roll);
      RollsOfMultiset(r', rows[1..], s);
      SortedCons(rows[0], r');
      [rows[0]] + r'
  }

  /** The roster without the row of `roll` (DELETE FROM student WHERE roll=?). */
  function WithoutRoll(rows: seq<Student>, roll: string): (r: seq<Student>)
    ensures forall x :: x in r <==> x in rows && x.roll != roll
    ensures Rolls(r) == Rolls(rows) - {roll}
    ensures SortedByRoll(rows) ==> SortedByRoll(r)
  {
    if rows == [] then []
    else
      var r' := WithoutRoll(rows[1..], roll);
      assert forall x :: x in rows <==> x == rows[0] || x in rows[1..];
      assert SortedByRoll(rows) ==> SortedByRoll(r') && forall x :: x in r' ==> StrLess(rows[0].roll, x.roll) by {
        if SortedByRoll(rows) {
          var tail := rows[1..];
          forall i, j | 0 <= i < j < |tail| ensures StrLess(tail[i].roll, tail[j].roll) {
            assert tail[i] == rows[i + 1] && tail[j] == rows[j + 1];
          }
          forall x | x in r' ensures StrLess(rows[0].roll, x.roll) {
            var j :| 0 <= j < |tail| && tail[j] == x;
            assert rows[j + 1] == x;
          }
        }
      }
      if rows[0].roll == roll then r'
      else
        assert SortedByRoll(rows) ==> SortedByRoll([rows[0]] + r') by {
          if SortedByRoll(rows) { SortedCons(rows[0], r'); }
        }
        [rows[0]] + r'
  }

  /** The roster with the name of `roll` replaced (UPDATE student SET name=? WHERE roll=?). */
  function Renamed(rows: seq<Student>, roll: string, name: string): (r: seq<Student>)
    ensures |r| == |rows|
    ensures forall i :: 0 <= i < |rows| ==> r[i].roll == rows[i].roll
    ensures forall i :: 0 <= i < |rows| ==> r[i].name == if rows[i].roll == roll then name else rows[i].name
  {
    seq(|rows|, i requires 0 <= i < |rows| => if rows[i].roll == roll then Student(roll, name) else rows[i])
  }

  // ---------------------------------------------------------------------------
  // Statements
  // ---------------------------------------------------------------------------

  /** INSERT INTO student (roll, name) VALUES (?, ?). */
  function InsertStudent(t: Tables, roll: string, name: string): (r: Result<Tables>)
    requires TablesValid(t)
    ensures r.Ok? <==> |roll| <= RollWidth && |name| <= NameWidth && roll !in Rolls(t.students)
    ensures r == Err(DuplicateEntry) <==> FitsColumns(Student(roll, name)) && roll in Rolls(t.students)
    ensures r.Ok? ==> && TablesValid(r.value)
                      && multiset(r.value.students) == multiset(t.students) + multiset{Student(roll, name)}
                      && r.value.attendance == t.attendance
  {
    if |roll| > RollWidth then Err(DataTooLong("roll"))
    else if |name| > NameWidth then Err(DataTooLong("name"))
    else if roll in Rolls(t.students) then Err(DuplicateEntry)
    else
      var rows := InsertByRoll(t.students, Student(roll, name));
      RollsOfMultiset(rows, t.students, Student(roll, name));
      Ok(Tables(rows, t.attendance))
  }

  /** REPLACE INTO attendance (roll, date, status) VALUES (?, ?, ?): an upsert of
      one key, refused by the foreign key when the roll is not rostered. */
  function ReplaceAttendance(t: Tables, roll: string, date: string, st: Status): (r: Result<Tables>)
    requires TablesValid(t)
    ensures r.Ok? <==> roll in Rolls(t.students)
    ensures r.Ok? ==> && TablesValid(r.value)
                      && r.value.students == t.students
                      && r.value.attendance.Keys == t.attendance.Keys + {Key(roll, date)}
                      && r.value.attendance[Key(roll, date)] == st
                      && forall k :: k in t.attendance && k != Key(roll, date) ==> r.value.attendance[k] == t.attendance[k]
  {
    if roll !in Rolls(t.students) then
      if |roll| > RollWidth then Err(DataTooLong("roll")) else Err(ForeignKeyFails)
    else Ok(Tables(t.students, t.attendance[Key(roll, date) := st]))
  }

  /** Running the same REPLACE twice leaves the tables as running it once. */
  lemma ReplaceAttendanceIdempotent(t: Tables, roll: string, date: string, st: Status)
    requires TablesValid(t) && ReplaceAttendance(t, roll, date, st).Ok?
    ensures ReplaceAttendance(ReplaceAttendance(t, roll, date, st).value, roll, date, st)
            == ReplaceAttendance(t, roll, date, st)
  {
    var k := Key(roll, date);
    assert t.attendance[k := st][k := st] == t.attendance[k := st];
  }

  /** DELETE FROM attendance WHERE roll=?. */
  function DeleteAttendanceOf(t: Tables, roll: string): (r: Tables)
    requires TablesValid(t)
    ensures TablesValid(r) && r.students == t.students
    ensures r.attendance.Keys == set k | k in t.attendance && k.roll != roll
    ensures forall k :: k in r.attendance ==> r.attendance[k] == t.attendance[k]
  {
    Tables(t.students, map k | k in t.attendance && k.roll != roll :: t.attendance[k])
  }

  /** DELETE FROM student WHERE roll=?; ON DELETE CASCADE removes the student's
      attendance rows with it. */
  function DeleteStudent(t: Tables, roll: string): (r: Tables)
    requires TablesValid(t)
    ensures TablesValid(r)
    ensures Rolls(r.students) == Rolls(t.students) - {roll}
    ensures forall s :: s in r.students <==> s in t.students && s.roll != roll
    ensures r.attendance.Keys == set k | k in t.attendance && k.roll != roll
    ensures forall k :: k in r.attendance ==> r.attendance[k] == t.attendance[k]
  {
    Tables(WithoutRoll(t.students, roll), map k | k in t.attendance && k.roll != roll :: t.attendance[k])
  }

  /** UPDATE student SET name=? WHERE roll=?, with the number of affected rows:
      MySQL counts only rows whose value actually changed, so an unknown roll and
      an unchanged name both give 0. */
  function UpdateName(t: Tables, roll: string, name: string): (r: Result<(Tables, nat)>)
    requires TablesValid(t)
    ensures r.Err? <==> roll in Rolls(t.students) && |name| > NameWidth
    ensures r.Ok? ==> TablesValid(r.value.0) && r.value.0.attendance == t.attendance
    ensures r.Ok? ==> (r.value.1 > 0 <==> exists s :: s in t.students && s.roll == roll && s.name != name)
    ensures r.Ok? && r.value.1 == 0 ==> r.value.0 == t
    ensures r.Ok? ==> r.value.0.students == Renamed(t.students, roll, name)
  {
    if roll !in Rolls(t.students) then
      assert Renamed(t.students, roll, name) == t.students;
      Ok((t, 0))
    else if |name| > NameWidth then Err(DataTooLong("name"))
    else
      var rows := Renamed(t.students, roll, name);
      assert Rolls(rows) == Rolls(t.students) by {
        forall x | x in Rolls(t.students) ensures x in Rolls(rows) {
          var s :| s in t.students && s.roll == x;
          var i :| 0 <= i < |t.students| && t.students[i] == s;
          assert rows[i] in rows;
        }
      }
      if exists s :: s in t.students && s.roll == roll && s.name != name then
        Ok((Tables(rows, t.attendance), 1))
      else
        assert rows == t.students;
        Ok((t, 0))
  }

  /** TRUNCATE TABLE attendance. */
  function Truncate(t: Tables): (r: Tables)
    requires TablesValid(t)
    ensures TablesValid(r) && r.students == t.students && |r.attendance| == 0
  {
    Tables(t.students, map[])
  }

  // ---------------------------------------------------------------------------
  // The store, updated in place
  // ---------------------------------------------------------------------------

  class Database {
    var students: seq<Student>
    var attendance: map<Key, Status>

    function State(): Tables
      reads this
    {
      Tables(students, attendance)
    }

    ghost predicate Valid()
      reads this
    {
      TablesValid(State())
    }

    /** Both tables freshly created (CREATE TABLE IF NOT EXISTS on an empty database). */
    constructor ()
      ensures Valid() && State() == Tables([], map[])
    {
      students := [];
      attendance := map[];
    }

    method Insert(roll: string, name: string) returns (err: Option<DbError>)
      requires Valid()
      modifies this
      ensures Valid()
      ensures match InsertStudent(old(State()), roll, name)
              case Ok(t) => err == None && State() == t
              case Err(e) => err == Some(e) && State() == old(State())
    {
      var r := InsertStudent(State(), roll, name);
      match r
      case Ok(t) => students, attendance, err := t.students, t.attendance, None;
      case Err(e) => err := Some(e);
    }

    method Replace(roll: string, date: string, st: Status) returns (err: Option<DbError>)
      requires Valid()
      modifies this
      ensures Valid()
      ensures match ReplaceAttendance(old(State()), roll, date, st)
              case Ok(t) => err == None && State() == t
              case Err(e) => err == Some(e) && State() == old(State())
    {
      var r := ReplaceAttendance(State(), roll, date, st);
      match r
      case Ok(t) => attendance, err := t.attendance, None;
      case Err(e) => err := Some(e);
    }

    method DeleteAttendance(roll: string)
      requires Valid()
      modifies this
      ensures Valid() && State() == DeleteAttendanceOf(old(State()), roll)
    {
      attendance := DeleteAttendanceOf(State(), roll).attendance;
    }

    method Delete(roll: string)
      requires Valid()
      modifies this
      ensures Valid() && State() == DeleteStudent(old(State()), roll)
    {
      var t := DeleteStudent(State(), roll);
      students, attendance := t.students, t.attendance;
    }

    method Update(roll: string, name: string) returns (r: Result<nat>)
      requires Valid()
      modifies this
      ensures Valid()
      ensures match UpdateName(old(State()), roll, name)
              case Ok(p) => r == Ok(p.1) && State() == p.0
              case Err(e) => r == Err(e) && State() == old(State())
    {
      var u := UpdateName(State(), roll, name);
      match u
      case Ok(p) => students, r := p.0.students, Ok(p.1);
      case Err(e) => r := Err(e);
    }

    method TruncateAttendance()
      requires Valid()
      modifies this
      ensures Valid() && State() == Truncate(old(State()))
    {
      attendance := map[];
    }

    /** Puts back a snapshot taken earlier (ROLLBACK). */
    method Restore(t: Tables)
      requires TablesValid(t)
      modifies this
      ensures Valid() && State() == t
    {
      students, attendance := t.students, t.attendance;
    }
  }
}
