/** The per-date figures of intex.php: how many students are absent, on half day
    morning leave and on half day evening leave on one date, and who they are, in
    roll order. The page-load loop (intex.php:326-341) works from the roster and
    the rows of the date, with a missing row meaning present; the recount after an
    AJAX update (intex.php:191-207) works from a LEFT JOIN, where a missing row is
    a null status. Both are specified by `DayTally`, and `RecountMatchesPageLoad`
    shows they agree. */
module DailyCounts {
  import opened PhpText
  import opened Schema

  /** The counters and the three lists (`$counts[...]`, `$absentStudentsList`, ...). */
  datatype Tally = Tally(
    absent: nat, halfDayMorning: nat, halfDayEvening: nat,
    absentList: seq<Student>, halfDayMorningList: seq<Student>, halfDayEveningList: seq<Student>)

  const EmptyTally := Tally(0, 0, 0, [], [], [])

  /** The rows of one date, keyed by roll: SELECT roll, status FROM attendance WHERE date = ?. */
  function RowsOnDate(att: map<Key, Status>, date: string): (day: map<string, Status>)
    ensures forall roll :: roll in day <==> Key(roll, date) in att
    ensures forall roll :: roll in day ==> day[roll] == att[Key(roll, date)]
  {
    var day := map k | k in att && k.date == date :: k.roll := att[k];
    assert forall roll :: Key(roll, date) in att ==> roll in day by {
      forall roll | Key(roll, date) in att ensures roll in day {
        var k := Key(roll, date);
        assert k.roll == roll;
      }
    }
    day
  }

  /** `$attendanceData[$roll] ?? 'p'`: with no row for the date the student is present. */
  function EffectiveStatus(day: map<string, Status>, roll: string): (r: Status)
    ensures roll in day ==> r == day[roll]
    ensures roll !in day ==> r == Present
    ensures r != Present ==> roll in day && day[roll] == r
  {
    if roll in day then day[roll] else Present
  }

  /** The students of `rows`, in their order, whose status for the day is `st`. */
  function WithStatus(rows: seq<Student>, day: map<string, Status>, st: Status): seq<Student> {
    if rows == [] then []
    else
      var last := rows[|rows| - 1];
      WithStatus(rows[..|rows| - 1], day, st) + (if EffectiveStatus(day, last.roll) == st then [last] else [])
  }

  /** What the page shows for a date: each counter is the length of its list. */
  function DayTally(rows: seq<Student>, day: map<string, Status>): Tally {
    var a, m, e := WithStatus(rows, day, Absent), WithStatus(rows, day, HalfDayMorning), WithStatus(rows, day, HalfDayEvening);
    Tally(|a|, |m|, |e|, a, m, e)
  }

  /** The page-load loop over `$allStudents` (intex.php:326-341). */
  method CountDay(allStudents: seq<Student>, attendanceData: map<string, Status>) returns (t: Tally)
    ensures t == DayTally(allStudents, attendanceData)
  {
    t := EmptyTally;
    var i := 0;
    while i < |allStudents|
      invariant 0 <= i <= |allStudents|
      invariant t == DayTally(allStudents[..i], attendanceData)
    {
      var s := allStudents[i];
      var status := EffectiveStatus(attendanceData, s.roll);
      if status == Absent {
        t := t.(absent := t.absent + 1, absentList := t.absentList + [s]);
      } else if status == HalfDayMorning {
        t := t.(halfDayMorning := t.halfDayMorning + 1, halfDayMorningList := t.halfDayMorningList + [s]);
      } else if status == HalfDayEvening {
        t := t.(halfDayEvening := t.halfDayEvening + 1, halfDayEveningList := t.halfDayEveningList + [s]);
      }
      assert allStudents[..i + 1][..i] == allStudents[..i];
      i := i + 1;
    }
    assert allStudents[..|allStudents|] == allStudents;
  }

  /** The page-load figures for a date, straight from the store (intex.php:288-341).
      `selectFails` is a failure of the attendance SELECT: it is caught, the
      day's map stays empty, and every student shows as present. */
  method PageLoadTally(db: Database, selectedDate: string, selectFails: bool) returns (t: Tally)
    requires db.Valid()
    ensures !selectFails ==> t == DayTally(db.students, RowsOnDate(db.attendance, selectedDate))
    ensures selectFails ==> t == EmptyTally
  {
    var allStudents := db.students;
    var attendanceData: map<string, Status> := map[];
    if !selectFails {
      attendanceData := RowsOnDate(db.attendance, selectedDate);
    } else {
      NoRowsNoLists(allStudents);
    }
    t := CountDay(allStudents, attendanceData);
  }

  /** With no rows for the day every student is present, so all lists are empty. */
  lemma {:induction false} NoRowsNoLists(rows: seq<Student>)
    ensures DayTally(rows, map[]) == EmptyTally
  {
    forall st | st != Present ensures WithStatus(rows, map[], st) == [] {
      NoRowsNoList(rows, st);
    }
  }

  lemma {:induction false} NoRowsNoList(rows: seq<Student>, st: Status)
    requires st != Present
    ensures WithStatus(rows, map[], st) == []
    decreases |rows|
  {
    if rows != [] {
      NoRowsNoList(rows[..|rows| - 1], st);
    }
  }

  // ---------------------------------------------------------------------------
  // The AJAX recount over a LEFT JOIN
  // ---------------------------------------------------------------------------

  /** One row of the LEFT JOIN: the status is null when the student has no row. */
  datatype JoinedRow = JoinedRow(roll: string, name: string, status: Option<Status>)

  /** SELECT s.roll, s.name, a.status FROM student s LEFT JOIN attendance a
      ON s.roll = a.roll AND a.date = ? ORDER BY s.roll. */
  function LeftJoinOnDate(rows: seq<Student>, att: map<Key, Status>, date: string): (r: seq<JoinedRow>)
    ensures |r| == |rows|
    ensures forall i :: 0 <= i < |r| ==> r[i].roll == rows[i].roll && r[i].name == rows[i].name
    ensures forall i :: 0 <= i < |r| ==> (r[i].status.None? <==> Key(rows[i].roll, date) !in att)
    ensures forall i :: 0 <= i < |r| && r[i].status.Some? ==> att[Key(rows[i].roll, date)] == r[i].status.value
  {
    seq(|rows|, i requires 0 <= i < |rows| =>
      var k := Key(rows[i].roll, date);
      JoinedRow(rows[i].roll, rows[i].name, if k in att then Some(att[k]) else None))
  }

  /** The joined rows whose status is exactly `st`; a null status matches nothing. */
  function JoinedWithStatus(joined: seq<JoinedRow>, st: Status): seq<Student> {
    if joined == [] then []
    else
      var last := joined[|joined| - 1];
      JoinedWithStatus(joined[..|joined| - 1], st) + (if last.status == Some(st) then [Student(last.roll, last.name)] else [])
  }

  function JoinedTally(joined: seq<JoinedRow>): Tally {
    var a, m, e := JoinedWithStatus(joined, Absent), JoinedWithStatus(joined, HalfDayMorning), JoinedWithStatus(joined, HalfDayEvening);
    Tally(|a|, |m|, |e|, a, m, e)
  }

  /** The recount loop of the AJAX handler (intex.php:196-207). */
  method RecountJoined(joined: seq<JoinedRow>) returns (t: Tally)
    ensures t == JoinedTally(joined)
  {
    t := EmptyTally;
    var i := 0;
    while i < |joined|
      invariant 0 <= i <= |joined|
      invariant t == JoinedTally(joined[..i])
    {
      var row := joined[i];
      var s := Student(row.roll, row.name);
      if row.status == Some(Absent) {
        t := t.(absent := t.absent + 1, absentList := t.absentList + [s]);
      } else if row.status == Some(HalfDayMorning) {
        t := t.(halfDayMorning := t.halfDayMorning + 1, halfDayMorningList := t.halfDayMorningList + [s]);
      } else if row.status == Some(HalfDayEvening) {
        t := t.(halfDayEvening := t.halfDayEvening + 1, halfDayEveningList := t.halfDayEveningList + [s]);
      }
      assert joined[..i + 1][..i] == joined[..i];
      i := i + 1;
    }
    assert joined[..|joined|] == joined;
  }

  lemma {:induction false} JoinedListMatchesDayList(rows: seq<Student>, att: map<Key, Status>, date: string, st: Status)
    requires st != Present
    ensures JoinedWithStatus(LeftJoinOnDate(rows, att, date), st) == WithStatus(rows, RowsOnDate(att, date), st)
    decreases |rows|
  {
    if rows != [] {
      var n := |rows| - 1;
      var joined := LeftJoinOnDate(rows, att, date);
      assert joined[..n] == LeftJoinOnDate(rows[..n], att, date);
      JoinedListMatchesDayList(rows[..n], att, date, st);
    }
  }

  /** The AJAX recount and the page-load loop give the same counters and the same
      lists for every roster, store and date. */
  lemma RecountMatchesPageLoad(rows: seq<Student>, att: map<Key, Status>, date: string)
    ensures JoinedTally(LeftJoinOnDate(rows, att, date)) == DayTally(rows, RowsOnDate(att, date))
  {
    JoinedListMatchesDayList(rows, att, date, Absent);
    JoinedListMatchesDayList(rows, att, date, HalfDayMorning);
    JoinedListMatchesDayList(rows, att, date, HalfDayEvening);
  }

  // ---------------------------------------------------------------------------
  // What the figures mean
  // ---------------------------------------------------------------------------

  /** A student is in the list of `st` exactly when it is on the roster and its
      status for the day, defaulting to present, is `st`. */
  lemma {:induction false} InDayList(rows: seq<Student>, day: map<string, Status>, st: Status, x: Student)
    ensures x in WithStatus(rows, day, st) <==> x in rows && EffectiveStatus(day, x.roll) == st
    decreases |rows|
  {
    if rows != [] {
      var n := |rows| - 1;
      InDayList(rows[..n], day, st, x);
      assert rows == rows[..n] + [rows[n]];
    }
  }

  /** A rostered student with no row for the date is in none of the three lists. */
  lemma UnrecordedStudentIsPresent(rows: seq<Student>, day: map<string, Status>, x: Student)
    requires x in rows && x.roll !in day
    ensures var t := DayTally(rows, day);
            x !in t.absentList && x !in t.halfDayMorningList && x !in t.halfDayEveningList
  {
    InDayList(rows, day, Absent, x);
    InDayList(rows, day, HalfDayMorning, x);
    InDayList(rows, day, HalfDayEvening, x);
  }

  /** A student lands in at most one list, so the three counters add up to at most
      the size of the roster. */
  lemma {:induction false} CountersBoundedByRoster(rows: seq<Student>, day: map<string, Status>)
    ensures var t := DayTally(rows, day);
            t.absent + t.halfDayMorning + t.halfDayEvening <= |rows|
    decreases |rows|
  {
    if rows != [] {
      CountersBoundedByRoster(rows[..|rows| - 1], day);
    }
  }

  /** Every list keeps roll order. */
  lemma {:induction false} DayListInRollOrder(rows: seq<Student>, day: map<string, Status>, st: Status)
    requires SortedByRoll(rows)
    ensures SortedByRoll(WithStatus(rows, day, st))
    decreases |rows|
  {
    if rows != [] {
      var n := |rows| - 1;
      var prefix, last := rows[..n], rows[n];
      assert SortedByRoll(prefix);
      DayListInRollOrder(prefix, day, st);
      var l := WithStatus(prefix, day, st);
      if EffectiveStatus(day, last.roll) == st {
        forall i | 0 <= i < |l| ensures StrLess(l[i].roll, last.roll) {
          assert l[i] in l;
          InDayList(prefix, day, st, l[i]);
          var j :| 0 <= j < n && prefix[j] == l[i];
        }
        var r := l + [last];
        forall i, j | 0 <= i < j < |r| ensures StrLess(r[i].roll, r[j].roll) {
          if j < |l| { assert r[i] == l[i] && r[j] == l[j]; }
        }
      }
    }
  }

  /** After a successful upsert of (roll, date) the day's figures read back the
      new status for that roll, and every other student keeps its status. */
  lemma UpsertThenRead(t: Tables, roll: string, date: string, st: Status, other: string)
    requires TablesValid(t) && ReplaceAttendance(t, roll, date, st).Ok?
    ensures var t' := ReplaceAttendance(t, roll, date, st).value;
            && EffectiveStatus(RowsOnDate(t'.attendance, date), roll) == st
            && (other != roll ==> EffectiveStatus(RowsOnDate(t'.attendance, date), other)
                                  == EffectiveStatus(RowsOnDate(t.attendance, date), other))
  {
  }

  // ---------------------------------------------------------------------------
  // getStatusDisplayText (intex.php:136-145)
  // ---------------------------------------------------------------------------

  /** getStatusDisplayText: the text of a stored code is never itself a code,
      and any other value, "N/A" included, is shown as it is. */
  function StatusDisplayText(statusCode: string): (r: string)
    ensures ParseStatus(statusCode).Some? ==> ParseStatus(r).None? && r != "N/A"
    ensures ParseStatus(statusCode).None? ==> r == statusCode
  {
    if statusCode == "p" then "Present"
    else if statusCode == "a" then "Absent"
    else if statusCode == "hm" then "Half Day Morning"
    else if statusCode == "he" then "Half Day Evening"
    else if statusCode == "N/A" then "N/A"
    else statusCode
  }

  /** The four stored codes get four different texts, none of which is itself a
      code, so the text shown identifies the status; any other code is shown as it is. */
  lemma StatusDisplayTextIdentifies(a: Status, b: Status, other: string)
    ensures StatusDisplayText(Code(a)) == StatusDisplayText(Code(b)) ==> a == b
    ensures ParseStatus(StatusDisplayText(Code(a))).None?
    ensures ParseStatus(other).None? && other != "N/A" ==> StatusDisplayText(other) == other
  {
  }
}
