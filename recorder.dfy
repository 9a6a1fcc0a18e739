/** The request handlers of intex.php that change the store: the AJAX update of one
    cell with its recount (intex.php:150-245), the batch form submission with its
    activity log (intex.php:249-285), the add-student form (intex.php:95-122) and
    the seeding of an empty roster (intex.php:57-91). */
module Recorder {
  import opened PhpText
  import opened Schema
  import opened DailyCounts

  // ---------------------------------------------------------------------------
  // Single-cell AJAX update
  // ---------------------------------------------------------------------------

  /** The JSON answer: `success:false` with a message, or `success:true` with the
      recomputed figures for the date. */
  datatype AjaxReply = AjaxFailure(message: string) | AjaxSuccess(counts: Tally)

  /** Validates the status, upserts the (roll, date) cell and recounts the date. */
  method UpdateCell(db: Database, roll: string, statusValue: string, dateValue: string) returns (reply: AjaxReply)
    requires db.Valid()
    modifies db
    ensures db.Valid()
    ensures ParseStatus(statusValue).None? ==>
              reply == AjaxFailure("Invalid status value provided.") && db.State() == old(db.State())
    ensures ParseStatus(statusValue).Some? ==>
              match ReplaceAttendance(old(db.State()), roll, dateValue, ParseStatus(statusValue).value)
              case Err(_) => reply == AjaxFailure("Database error during update.") && db.State() == old(db.State())
              case Ok(t) => db.State() == t && reply == AjaxSuccess(DayTally(t.students, RowsOnDate(t.attendance, dateValue)))
  {
    var status := ParseStatus(statusValue);
    if status.None? {
      return AjaxFailure("Invalid status value provided.");
    }
    var err := db.Replace(roll, dateValue, status.value);
    if err.Some? {
      return AjaxFailure("Database error during update.");
    }
    var joined := LeftJoinOnDate(db.students, db.attendance, dateValue);
    var counts := RecountJoined(joined);
    RecountMatchesPageLoad(db.students, db.attendance, dateValue);
    reply := AjaxSuccess(counts);
  }

  // ---------------------------------------------------------------------------
  // Batch form submission and the activity log
  // ---------------------------------------------------------------------------

  /** One entry of `$_POST['status']`: roll => submitted value. */
  datatype BatchEntry = BatchEntry(roll: string, value: string)

  /** attendance_log.txt, opened in append mode. */
  class ActivityLog {
    var lines: seq<string>

    constructor ()
      ensures lines == []
    {
      lines := [];
    }

    method Append(line: string)
      modifies this
      ensures lines == old(lines) + [line]
    {
      lines := lines + [line];
    }
  }

  /** `[timestamp] Date: d | Roll: r | Status: s` and a line feed. */
  function LogLine(timestamp: string, date: string, roll: string, value: string): (r: string)
    ensures |r| > 0 && r[|r| - 1] == '\n'
    ensures |timestamp| < |r| && r[..|timestamp| + 1] == "[" + timestamp
    ensures '\n' !in timestamp + date + roll + value ==> '\n' !in r[..|r| - 1]
  {
    "[" + timestamp + "] Date: " + date + " | Roll: " + roll + " | Status: " + value + "\n"
  }

  /** What the batch does to the tables, and the log lines it writes, entry after
      entry: an invalid value is skipped, a failing REPLACE is skipped, and each
      successful REPLACE writes one line. */
  function BatchEffect(t: Tables, date: string, entries: seq<BatchEntry>, timestamp: string): (r: (Tables, seq<string>))
    requires TablesValid(t)
    ensures TablesValid(r.0) && r.0.students == t.students
    decreases |entries|
  {
    if entries == [] then (t, [])
    else
      var before := BatchEffect(t, date, entries[..|entries| - 1], timestamp);
      var e := entries[|entries| - 1];
      match ParseStatus(e.value)
      case None => before
      case Some(st) =>
        match ReplaceAttendance(before.0, e.roll, date, st)
        case Err(_) => before
        case Ok(t') => (t', before.1 + [LogLine(timestamp, date, e.roll, e.value)])
  }

  /** The batch loop (intex.php:256-276). A null log is a log file that did not open. */
  method SubmitBatch(db: Database, log: ActivityLog?, selectedDate: string, entries: seq<BatchEntry>, timestamp: string)
    requires db.Valid()
    modifies db, log
    ensures db.Valid()
    ensures db.State() == BatchEffect(old(db.State()), selectedDate, entries, timestamp).0
    ensures log != null ==> log.lines == old(log.lines) + BatchEffect(old(db.State()), selectedDate, entries, timestamp).1
  {
    var i := 0;
    while i < |entries|
      invariant 0 <= i <= |entries|
      invariant db.Valid()
      invariant db.State() == BatchEffect(old(db.State()), selectedDate, entries[..i], timestamp).0
      invariant log != null ==> log.lines == old(log.lines) + BatchEffect(old(db.State()), selectedDate, entries[..i], timestamp).1
    {
      var roll, value := entries[i].roll, entries[i].value;
      assert entries[..i + 1][..i] == entries[..i];
      var status := ParseStatus(value);
      if status.Some? {
        var err := db.Replace(roll, selectedDate, status.value);
        if err.None? && log != null {
          log.Append(LogLine(timestamp, selectedDate, roll, value));
        }
      }
      i := i + 1;
    }
    assert entries[..|entries|] == entries;
  }

  /** An entry the batch writes: a valid status for a rostered roll. */
  predicate Accepted(students: seq<Student>, e: BatchEntry) {
    ParseStatus(e.value).Some? && e.roll in Rolls(students)
  }

  /** The log lines of the accepted entries, in submission order. */
  function AcceptedLines(students: seq<Student>, date: string, entries: seq<BatchEntry>, timestamp: string): seq<string> {
    if entries == [] then []
    else
      var e := entries[|entries| - 1];
      AcceptedLines(students, date, entries[..|entries| - 1], timestamp)
        + (if Accepted(students, e) then [LogLine(timestamp, date, e.roll, e.value)] else [])
  }

  /** The batch writes exactly one log line per accepted entry, in submission
      order, and none for an invalid value or an unknown roll. */
  lemma {:induction false} BatchLogsAcceptedEntries(t: Tables, date: string, entries: seq<BatchEntry>, timestamp: string)
    requires TablesValid(t)
    ensures BatchEffect(t, date, entries, timestamp).1 == AcceptedLines(t.students, date, entries, timestamp)
    decreases |entries|
  {
    if entries != [] {
      BatchLogsAcceptedEntries(t, date, entries[..|entries| - 1], timestamp);
    }
  }

  /** Keys of another date, or of a roll that only rejected entries (or none)
      name, keep their rows: a rejected entry is skipped. */
  lemma {:induction false} BatchLeavesOtherKeys(t: Tables, date: string, entries: seq<BatchEntry>, timestamp: string, k: Key)
    requires TablesValid(t)
    requires k.date != date || forall e :: e in entries && e.roll == k.roll ==> !Accepted(t.students, e)
    ensures var a := BatchEffect(t, date, entries, timestamp).0.attendance;
            (k in a <==> k in t.attendance) && (k in a ==> a[k] == t.attendance[k])
    decreases |entries|
  {
    if entries != [] {
      var n := |entries| - 1;
      assert forall e :: e in entries[..n] ==> e in entries;
      BatchLeavesOtherKeys(t, date, entries[..n], timestamp, k);
    }
  }

  /** Entries are applied independently: an accepted entry whose roll is not
      submitted again later is stored, whatever the other entries do. */
  lemma {:induction false} BatchStoresAcceptedEntry(t: Tables, date: string, entries: seq<BatchEntry>, timestamp: string, i: nat)
    requires TablesValid(t)
    requires i < |entries| && Accepted(t.students, entries[i])
    requires forall j :: i < j < |entries| ==> entries[j].roll != entries[i].roll
    ensures var a := BatchEffect(t, date, entries, timestamp).0.attendance;
            var k := Key(entries[i].roll, date);
            k in a && a[k] == ParseStatus(entries[i].value).value
    decreases |entries|
  {
    var n := |entries| - 1;
    if i < n {
      BatchStoresAcceptedEntry(t, date, entries[..n], timestamp, i);
    }
  }

  // ---------------------------------------------------------------------------
  // Add-student form
  // ---------------------------------------------------------------------------

  datatype AddOutcome =
    | StudentAdded        // "Student ... added successfully!" and a reload
    | RollAlreadyExists   // error 1062
    | AddFailed           // any other database error
    | FieldsMissing       // "Please provide both Roll No and Student Name ..."

  /** The `add_student` form: trimmed roll and name, both non-empty in PHP's sense. */
  method AddStudent(db: Database, newRollInput: string, newNameInput: string) returns (outcome: AddOutcome)
    requires db.Valid()
    modifies db
    ensures db.Valid()
    ensures var roll, name := Trim(newRollInput), Trim(newNameInput);
            if PhpEmpty(roll) || PhpEmpty(name) then
              outcome == FieldsMissing && db.State() == old(db.State())
            else
              match InsertStudent(old(db.State()), roll, name)
              case Ok(t) => outcome == StudentAdded && db.State() == t
              case Err(e) => outcome == (if ErrorCode(e) == 1062 then RollAlreadyExists else AddFailed)
                             && db.State() == old(db.State())
  {
    var newRoll := Trim(newRollInput);
    var newName := Trim(newNameInput);
    if !PhpEmpty(newRoll) && !PhpEmpty(newName) {
      var err := db.Insert(newRoll, newName);
      if err.None? {
        outcome := StudentAdded;
      } else if ErrorCode(err.value) == 1062 {
        outcome := RollAlreadyExists;
      } else {
        outcome := AddFailed;
      }
    } else {
      outcome := FieldsMissing;
    }
  }

  /** Adding the same roll a second time is refused as a duplicate and the first
      name stays. */
  lemma SecondAddIsDuplicate(t: Tables, roll: string, name: string, otherName: string)
    requires TablesValid(t) && InsertStudent(t, roll, name).Ok? && |otherName| <= NameWidth
    ensures var t' := InsertStudent(t, roll, name).value;
            && InsertStudent(t', roll, otherName) == Err(DuplicateEntry)
            && Student(roll, name) in t'.students
            && forall s :: s in t'.students && s.roll == roll ==> s.name == name
  {
    var t' := InsertStudent(t, roll, name).value;
    RollsOfMultiset(t'.students, t.students, Student(roll, name));
    var i :| 0 <= i < |t'.students| && t'.students[i] == Student(roll, name);
    forall s | s in t'.students && s.roll == roll ensures s.name == name {
      var j :| 0 <= j < |t'.students| && t'.students[j] == s;
      if i != j { SortedRollsDistinct(t'.students, i, j); }
    }
  }

  // ---------------------------------------------------------------------------
  // Seeding an empty roster
  // ---------------------------------------------------------------------------

  /** The 36 sample rows of the seeding block (intex.php:61-80): every roll there
      is "TTC08240" followed by two digits, so a row is kept as that number and
      the name, and `SampleRoll` spells the roll out. */
  type SampleNumber = n: nat | n < 100

  const SampleRows: seq<(SampleNumber, string)> := [
    (1, "ABHIRAMI P V"), (2, "ADHEENA M"),
    (3, "ANUNANDHA P"), (4, "DHIYA A K"),
    (5, "DIYA M"), (6, "SHIKHA M K"),
    (8, "MUGDHA BALA M"), (9, "AHAMAD RIYAN T"),
    (10, "ARJUN KRISHNAN N P"), (11, "BRINGESH P"),
    (12, "DEEPKRISHNA P K"), (13, "NEERAJ A"),
    (14, "REVANTH S"), (15, "VAISHAKH G K"),
    (16, "VIDHU MANOHAR"), (17, "ROSHITH K V"),
    (18, "SANGEERTH SATHYAN"), (19, "YADHUNANDH O T"),
    (20, "ARJAV ANEESH"), (21, "ASRITHA V"),
    (22, "ANUVEDH P"), (24, "THEJUS J"),
    (25, "AMAL ARAVIND"), (26, "NAINEEKA B P"),
    (27, "MUHAMMED AKMAL A"), (28, "MUHAMMED SHAHAN K C"),
    (29, "ADITHYAN A"), (31, "NISTHUL K"),
    (32, "RITHUNAND REJILESH"), (33, "SINAN P K"),
    (34, "MUHAMMED MEHAJABIN SEYYAF"), (35, "ABHAY KRISHNA N P"),
    (36, "FLAVIYUS CLEMENT"), (37, "JOHAN JOSEPH"),
    (38, "AMAL C V"), (39, "GAUTHAM MAHESH")
  ]

  function DigitChar(d: nat): (c: char)
    requires d < 10
    ensures '0' <= c <= '9'
  {
    (48 + d) as char
  }

  /** "TTC08240" followed by `n` written with two digits. */
  function SampleRoll(n: SampleNumber): (r: string)
    ensures |r| == 10 && r[..8] == "TTC08240"
  {
    "TTC08240" + TwoDigits(n)
  }

  /** `n` written with two decimal digits, a leading zero kept. */
  function TwoDigits(n: SampleNumber): (d: string)
    ensures |d| == 2
  {
    [DigitChar(n / 10), DigitChar(n % 10)]
  }

  const SampleStudents: seq<Student> :=
    seq(|SampleRows|, i requires 0 <= i < |SampleRows| =>
      Student(SampleRoll(SampleRows[i].0), SampleRows[i].1))

  /** A common prefix does not change the order. */
  lemma {:induction false} PrefixKeepsOrder(p: string, a: string, b: string)
    requires StrLess(a, b)
    ensures StrLess(p + a, p + b)
    decreases |p|
  {
    if p != [] {
      PrefixKeepsOrder(p[1..], a, b);
      assert (p + a)[0] == p[0] == (p + b)[0];
      assert (p + a)[1..] == p[1..] + a;
      assert (p + b)[1..] == p[1..] + b;
    } else {
      assert p + a == a && p + b == b;
    }
  }

  /** Two-digit numbers in increasing order give rolls in increasing order. */
  lemma SampleRollOrder(n: SampleNumber, m: SampleNumber)
    requires n < m
    ensures StrLess(SampleRoll(n), SampleRoll(m))
  {
    TwoDigitsOrder(n, m);
    PrefixKeepsOrder("TTC08240", TwoDigits(n), TwoDigits(m));
  }

  /** Two-digit writing keeps numeric order. */
  lemma TwoDigitsOrder(n: SampleNumber, m: SampleNumber)
    requires n < m
    ensures StrLess(TwoDigits(n), TwoDigits(m))
  {
    var dn, dm := TwoDigits(n), TwoDigits(m);
    if n / 10 == m / 10 {
      assert n % 10 < m % 10;
      assert dn[1..] == [DigitChar(n % 10)] && dm[1..] == [DigitChar(m % 10)];
    } else {
      assert n / 10 < m / 10;
    }
  }

  lemma SampleNumbersIncrease()
    ensures forall i :: 0 <= i < |SampleRows| - 1 ==> SampleRows[i].0 < SampleRows[i + 1].0
  {
  }

  lemma SampleNamesFit()
    ensures forall i :: 0 <= i < |SampleRows| ==> |SampleRows[i].1| <= NameWidth
  {
  }

  /** The sample list is already in roll order and fits the columns. */
  lemma SampleStudentsOrdered()
    ensures SortedByRoll(SampleStudents)
    ensures forall s :: s in SampleStudents ==> FitsColumns(s)
  {
    SampleNumbersIncrease();
    SampleNamesFit();
    forall i | 0 <= i < |SampleStudents| - 1
      ensures StrLess(SampleStudents[i].roll, SampleStudents[i + 1].roll)
    {
      SampleRollOrder(SampleRows[i].0, SampleRows[i + 1].0);
    }
    ChainIsSorted(SampleStudents);
  }

  /** A sequence in which each roll is before the next is in roll order. */
  lemma {:induction false} ChainIsSorted(rows: seq<Student>)
    requires forall i :: 0 <= i < |rows| - 1 ==> StrLess(rows[i].roll, rows[i + 1].roll)
    ensures SortedByRoll(rows)
    decreases |rows|
  {
    if |rows| > 1 {
      var n := |rows| - 1;
      ChainIsSorted(rows[..n]);
      forall i | 0 <= i < n ensures StrLess(rows[i].roll, rows[n].roll) {
        ChainReaches(rows, i, n);
      }
    }
  }

  lemma {:induction false} ChainReaches(rows: seq<Student>, i: nat, j: nat)
    requires forall k :: 0 <= k < |rows| - 1 ==> StrLess(rows[k].roll, rows[k + 1].roll)
    requires i < j < |rows|
    ensures StrLess(rows[i].roll, rows[j].roll)
    decreases j - i
  {
    if i + 1 < j {
      ChainReaches(rows, i + 1, j);
      StrLessTransitive(rows[i].roll, rows[i + 1].roll, rows[j].roll);
    }
  }

  /** Inserting a row whose roll is after every rostered roll appends it. */
  lemma {:induction false} InsertAfterAllAppends(rows: seq<Student>, s: Student)
    requires SortedByRoll(rows) && forall x :: x in rows ==> StrLess(x.roll, s.roll)
    ensures s.roll !in Rolls(rows)
    ensures InsertByRoll(rows, s) == rows + [s]
    decreases |rows|
  {
    StrLessIrreflexive(s.roll);
    if rows != [] {
      StrLessTrichotomy(s.roll, rows[0].roll);
      SortedTail(rows);
      InsertAfterAllAppends(rows[1..], s);
      assert rows == [rows[0]] + rows[1..];
    }
  }

  /** Inserting the next row of a roll-ordered list appends it. */
  lemma InsertNextRow(rows: seq<Student>, i: nat, att: map<Key, Status>)
    requires SortedByRoll(rows) && forall s :: s in rows ==> FitsColumns(s)
    requires i < |rows| && TablesValid(Tables(rows[..i], att))
    ensures InsertStudent(Tables(rows[..i], att), rows[i].roll, rows[i].name) == Ok(Tables(rows[..i + 1], att))
  {
    var s, prefix := rows[i], rows[..i];
    PrefixBeforeNext(rows, i);
    InsertAfterAllAppends(prefix, s);
    assert rows[..i + 1] == prefix + [s];
    assert FitsColumns(s);
  }

  lemma PrefixBeforeNext(rows: seq<Student>, i: nat)
    requires SortedByRoll(rows) && i < |rows|
    ensures SortedByRoll(rows[..i])
    ensures forall x :: x in rows[..i] ==> StrLess(x.roll, rows[i].roll)
  {
    forall x | x in rows[..i] ensures StrLess(x.roll, rows[i].roll) {
      var j :| 0 <= j < i && rows[j] == x;
    }
  }

  /** The insert loop of the seeding block, over a list already in roll order
      whose rows fit the columns, into an empty roster: a failing insert would end
      the loop, and none fails, so the roster becomes the list. */
  method InsertAll(db: Database, rows: seq<Student>, failAt: Option<nat>)
    requires db.Valid() && db.students == []
    requires SortedByRoll(rows) && forall s :: s in rows ==> FitsColumns(s)
    modifies db
    ensures db.Valid()
    ensures db.students == rows[..InsertedCount(|rows|, failAt)] && db.attendance == old(db.attendance)
  {
    var i := 0;
    while i < |rows|
      invariant 0 <= i <= InsertedCount(|rows|, failAt)
      invariant db.Valid()
      invariant db.students == rows[..i] && db.attendance == old(db.attendance)
    {
      if failAt == Some(i) {
        break;
      }
      InsertNextRow(rows, i, db.attendance);
      var err := db.Insert(rows[i].roll, rows[i].name);
      if err.Some? {
        break;
      }
      i := i + 1;
    }
  }

  /** How many rows the loop inserts when the insert at `failAt`, if any, fails:
      the failure is caught outside the loop, so the rows after it are not tried. */
  function InsertedCount(n: nat, failAt: Option<nat>): (c: nat)
    ensures c <= n
    ensures failAt.None? || failAt.value >= n ==> c == n
    ensures failAt.Some? && failAt.value < n ==> c == failAt.value
  {
    if failAt.Some? && failAt.value < n then failAt.value else n
  }

  /** The seeding block: when the student count is 0, insert the sample list in
      order. A non-empty roster is left alone. `failAt` is the index of a sample
      insert that fails, if one does: the exception is caught and logged, and the
      roster keeps the rows inserted before it. Since the count is then no longer
      0, a later page load does not complete the list. */
  method SeedIfEmpty(db: Database, failAt: Option<nat>)
    requires db.Valid()
    modifies db
    ensures db.Valid()
    ensures |old(db.students)| == 0 ==>
              db.students == SampleStudents[..InsertedCount(|SampleStudents|, failAt)]
              && db.attendance == old(db.attendance)
    ensures |old(db.students)| == 0 && (failAt.None? || failAt.value >= |SampleStudents|) ==> db.students == SampleStudents
    ensures |old(db.students)| != 0 ==> db.State() == old(db.State())
  {
    if |db.students| == 0 {
      SampleStudentsOrdered();
      InsertAll(db, SampleStudents, failAt);
      assert SampleStudents[..|SampleStudents|] == SampleStudents;
    }
  }
}
