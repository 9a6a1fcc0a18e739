/** The summary page (summary.php): the clear-all request, the choice of the
    date or date range from the filter, the per-student rows of the single-date
    view and of the range view, and the status cell of the single-date table. */
module Summary {
  import opened PhpText
  import opened Schema

  // ---------------------------------------------------------------------------
  // Clearing all attendance (summary.php:21-36)
  // ---------------------------------------------------------------------------

  /** Where the page sends the browser: `?message=...` or `?error=...`. */
  datatype Redirect = MessageRedirect(message: string) | ErrorRedirect(error: string)

  /** A POST with `clear_all_data`: TRUNCATE TABLE attendance runs only when
      `confirm_clear` is exactly "yes"; `fault` is the error of a failing
      TRUNCATE, which leaves the table as it was. */
  method ClearAllData(db: Database, confirmClear: Option<string>, fault: Option<string>) returns (reply: Redirect)
    requires db.Valid()
    modifies db
    ensures db.Valid()
    ensures confirmClear == Some("yes") && fault.None? ==>
              db.State() == Truncate(old(db.State()))
              && reply == MessageRedirect("All attendance data cleared successfully.")
    ensures confirmClear == Some("yes") && fault.Some? ==>
              db.State() == old(db.State()) && reply == ErrorRedirect("Failed to clear attendance data.")
    ensures confirmClear != Some("yes") ==>
              db.State() == old(db.State()) && reply == ErrorRedirect("Clear data action not confirmed.")
  {
    if confirmClear.Some? && confirmClear.value == "yes" {
      if fault.None? {
        db.TruncateAttendance();
        reply := MessageRedirect("All attendance data cleared successfully.");
      } else {
        reply := ErrorRedirect("Failed to clear attendance data.");
      }
    } else {
      reply := ErrorRedirect("Clear data action not confirmed.");
    }
  }

  /** After a confirmed, successful clear every student counts as present on
      every date of the main page, and the roster is untouched. */
  lemma ClearedStoreHasNoRows(t: Tables, roll: string, date: string)
    requires TablesValid(t)
    ensures Truncate(t).students == t.students
    ensures Key(roll, date) !in Truncate(t).attendance
  {
  }

  // ---------------------------------------------------------------------------
  // Date validation (summary.php:59-61)
  // ---------------------------------------------------------------------------

  predicate IsDigit(c: char) {
    '0' <= c <= '9'
  }

  /** Four digits, '-', two digits, '-', two digits and nothing else: what the
      check is meant to accept. No range check on the month or the day. It
      accepts ten characters, each a digit or a dash, and in particular no line
      break. */
  predicate IsDateShape(s: string)
    ensures IsDateShape(s) ==> |s| == 10 && '\n' !in s
    ensures IsDateShape(s) ==> forall c :: c in s ==> IsDigit(c) || c == '-'
  {
    && |s| == 10
    && s[4] == '-' && s[7] == '-'
    && forall i :: 0 <= i < 10 && i != 4 && i != 7 ==> IsDigit(s[i])
  }

  /** What preg_match("/^\d{4}-\d{2}-\d{2}$/", s) accepts: without the D
      modifier, `$` also matches just before a final newline. It accepts every
      well-shaped date, and the only other strings it accepts are a well-shaped
      date followed by one newline. */
  predicate MatchesDatePattern(s: string)
    ensures IsDateShape(s) ==> MatchesDatePattern(s)
    ensures MatchesDatePattern(s) && !IsDateShape(s) ==> |s| == 11 && IsDateShape(s[..10]) && s == s[..10] + "\n"
  {
    IsDateShape(s) || (|s| == 11 && s[10] == '\n' && IsDateShape(s[..10]))
  }

  /** The counterexample: a date with a trailing newline passes the check. */
  lemma DatePatternAcceptsTrailingNewline()
    ensures MatchesDatePattern("2024-01-10\n")
    ensures !IsDateShape("2024-01-10\n")
  {
    assert IsDateShape("2024-01-10\n"[..10]) by {
      assert "2024-01-10\n"[..10] == "2024-01-10";
    }
  }

  /** The value of the digits of `s` read as one decimal number, skipping the
      other characters. */
  function DigitsValue(s: string): nat {
    if s == [] then 0
    else
      var n := |s| - 1;
      if IsDigit(s[n]) then 10 * DigitsValue(s[..n]) + (s[n] as int - '0' as int) else DigitsValue(s[..n])
  }

  /** Two strings with their digits at the same places and the same characters
      elsewhere. */
  predicate SameLayout(a: string, b: string) {
    && |a| == |b|
    && forall i :: 0 <= i < |a| ==> (IsDigit(a[i]) <==> IsDigit(b[i])) && (!IsDigit(a[i]) ==> a[i] == b[i])
  }

  /** Two strings of the same length compare as their prefixes without the last
      character do, and on a tie as their last characters do. */
  lemma {:induction false} StrLessByLast(a: string, b: string)
    requires |a| == |b| > 0
    ensures var n := |a| - 1;
            StrLess(a, b) <==> StrLess(a[..n], b[..n]) || (a[..n] == b[..n] && a[n] < b[n])
    decreases |a|
  {
    var n := |a| - 1;
    if n == 0 {
      assert a[..n] == [] == b[..n];
    } else if a[0] == b[0] {
      StrLessByLast(a[1..], b[1..]);
      assert a[1..][..n - 1] == a[..n][1..] && b[1..][..n - 1] == b[..n][1..];
      assert a[..n] == b[..n] <==> a[..n][1..] == b[..n][1..] by {
        if a[..n][1..] == b[..n][1..] {
          assert a[..n] == [a[0]] + a[..n][1..] && b[..n] == [b[0]] + b[..n][1..];
        }
      }
    } else {
      assert a[..n][0] == a[0] && b[..n][0] == b[0];
    }
  }

  lemma {:induction false} SameLayoutOrder(a: string, b: string)
    requires SameLayout(a, b)
    ensures StrLess(a, b) <==> DigitsValue(a) < DigitsValue(b)
    decreases |a|
  {
    if a != [] {
      var n := |a| - 1;
      var a', b' := a[..n], b[..n];
      assert SameLayout(a', b') by {
        forall i | 0 <= i < n ensures (IsDigit(a'[i]) <==> IsDigit(b'[i])) && (!IsDigit(a'[i]) ==> a'[i] == b'[i]) {
          assert a'[i] == a[i] && b'[i] == b[i];
        }
      }
      assert SameLayout(b', a');
      SameLayoutOrder(a', b');
      SameLayoutOrder(b', a');
      StrLessTrichotomy(a', b');
      StrLessByLast(a, b);
      assert IsDigit(a[n]) <==> IsDigit(b[n]);
    }
  }

  /** Two well-shaped dates compare as strings exactly as the numbers YYYYMMDD
      they spell, which is how the store compares DATE values; so BETWEEN and the
      swap below can be stated on the strings. */
  lemma DateOrderIsNumericOrder(a: string, b: string)
    requires IsDateShape(a) && IsDateShape(b)
    ensures StrLess(a, b) <==> DigitsValue(a) < DigitsValue(b)
  {
    assert SameLayout(a, b) by {
      forall i | 0 <= i < |a| ensures (IsDigit(a[i]) <==> IsDigit(b[i])) && (!IsDigit(a[i]) ==> a[i] == b[i]) {
        if i == 4 || i == 7 { } else { assert IsDigit(a[i]) && IsDigit(b[i]); }
      }
    }
    SameLayoutOrder(a, b);
  }

  // ---------------------------------------------------------------------------
  // The filter (summary.php:40-68)
  // ---------------------------------------------------------------------------

  /** What the rows are built from: one date, or an inclusive range. */
  datatype Query = SingleDate(date: string) | DateRange(start: string, end: string)

  datatype FilterOutcome = Run(query: Query, title: string) | InvalidDateFormat

  /** The filter name and the three dates the request asks for, before
      validation: `filter` defaults to "single"; in custom mode `from` defaults to
      the first of the month and `to` to today; in single mode `specific_date`
      defaults to today; every date not set by the mode is today. */
  datatype Request = Request(filter: string, start: string, end: string, selected: string)

  function RequestOf(filter: Option<string>, specificDate: Option<string>, from: Option<string>, to: Option<string>,
                     today: string, monthStart: string): (r: Request)
    ensures filter.None? ==> r.filter == "single"
    ensures r.filter != "custom" ==> r.start == today && r.end == today
    ensures r.filter != "single" ==> r.selected == today
  {
    var f := if filter.Some? then filter.value else "single";
    if f == "custom" then
      Request(f, if from.Some? then from.value else monthStart, if to.Some? then to.value else today, today)
    else if f == "single" then
      Request(f, today, today, if specificDate.Some? then specificDate.value else today)
    else
      Request(f, today, today, today)
  }

  /** The filter handling: defaults, the page title, the date check (any of the
      three dates not well-shaped stops the page with "Invalid date format
      provided."; the check is `IsDateShape`, without the trailing-newline
      leniency of `MatchesDatePattern`), and the swap of an inverted custom range. Any filter other
      than "single" builds the range view; only "custom" reads the range from
      the request. */
  method ResolveFilter(filter: Option<string>, specificDate: Option<string>, from: Option<string>, to: Option<string>,
                       today: string, monthStart: string) returns (r: FilterOutcome)
    ensures var q := RequestOf(filter, specificDate, from, to, today, monthStart);
            r == InvalidDateFormat <==> !(IsDateShape(q.start) && IsDateShape(q.end) && IsDateShape(q.selected))
    ensures var q := RequestOf(filter, specificDate, from, to, today, monthStart);
            r.Run? && q.filter == "single" ==>
              r.query == SingleDate(q.selected) && r.title == "Attendance Summary on " + HtmlSpecialChars(q.selected)
    ensures var q := RequestOf(filter, specificDate, from, to, today, monthStart);
            r.Run? && q.filter != "single" ==>
              && r.query.DateRange?
              && StrLessEq(r.query.start, r.query.end)
              && ((r.query.start, r.query.end) == (q.start, q.end) || (r.query.start, r.query.end) == (q.end, q.start))
    ensures var q := RequestOf(filter, specificDate, from, to, today, monthStart);
            r.Run? && q.filter == "custom" ==>
              r.title == "Attendance Summary for Custom Range: " + HtmlSpecialChars(q.start) + " to " + HtmlSpecialChars(q.end)
                         + (if StrLess(q.end, q.start) then " (Adjusted Date Range)" else "")
    ensures var q := RequestOf(filter, specificDate, from, to, today, monthStart);
            r.Run? && q.filter != "custom" && q.filter != "single" ==>
              r.query == DateRange(today, today) && r.title == "Attendance Summary"
  {
    var f := if filter.Some? then filter.value else "single";
    var startDate, endDate, selectedDate := today, today, today;
    var title := "Attendance Summary";
    if f == "custom" {
      startDate := if from.Some? then from.value else monthStart;
      endDate := if to.Some? then to.value else today;
      title := "Attendance Summary for Custom Range: " + HtmlSpecialChars(startDate) + " to " + HtmlSpecialChars(endDate);
    } else if f == "single" {
      selectedDate := if specificDate.Some? then specificDate.value else today;
      title := "Attendance Summary on " + HtmlSpecialChars(selectedDate);
    }
    ghost var q := RequestOf(filter, specificDate, from, to, today, monthStart);
    assert q == Request(f, startDate, endDate, selectedDate);
    if !IsDateShape(startDate) || !IsDateShape(endDate) || !IsDateShape(selectedDate) {
      return InvalidDateFormat;
    }
    if f == "custom" && StrLess(endDate, startDate) {
      startDate, endDate := endDate, startDate;
      title := title + " (Adjusted Date Range)";
    }
    StrLessTrichotomy(startDate, endDate);
    if f == "single" {
      r := Run(SingleDate(selectedDate), title);
    } else {
      r := Run(DateRange(startDate, endDate), title);
    }
  }

  // ---------------------------------------------------------------------------
  // The summary rows (summary.php:74-137)
  // ---------------------------------------------------------------------------

  datatype SummaryRow =
    | StatusRow(roll: string, name: string, status: string)
    | CountRow(roll: string, name: string, present: nat, absent: nat, halfDayMorning: nat, halfDayEvening: nat)

  /** `$data['status'] ?? 'N/A'`: the stored code of the date, or "N/A". */
  function StatusOn(att: map<Key, Status>, roll: string, date: string): (r: string)
    ensures r == "N/A" <==> Key(roll, date) !in att
    ensures Key(roll, date) in att ==> ParseStatus(r) == Some(att[Key(roll, date)])
  {
    if Key(roll, date) in att then
      ParseStatusOfCode(att[Key(roll, date)]);
      Code(att[Key(roll, date)])
    else "N/A"
  }

  /** date BETWEEN start AND end, both ends included. */
  predicate Between(date: string, start: string, end: string) {
    StrLessEq(start, date) && StrLessEq(date, end)
  }

  /** The rows of `roll` whose date is in the range. */
  function RowsInRange(att: map<Key, Status>, roll: string, start: string, end: string): set<Key> {
    set k | k in att && k.roll == roll && Between(k.date, start, end)
  }

  /** The keys among `keys` whose stored status is `st`. */
  function KeysWithStatus(keys: set<Key>, att: map<Key, Status>, st: Status): set<Key> {
    set k | k in keys && k in att && att[k] == st
  }

  /** SUM(CASE WHEN status = st THEN 1 ELSE 0 END) over those rows. */
  function RangeCount(att: map<Key, Status>, roll: string, start: string, end: string, st: Status): (r: nat)
    ensures r > 0 <==> exists k :: k in att && k.roll == roll && Between(k.date, start, end) && att[k] == st
  {
    RangeCountPositive(att, roll, start, end, st);
    |KeysWithStatus(RowsInRange(att, roll, start, end), att, st)|
  }

  lemma RangeCountPositive(att: map<Key, Status>, roll: string, start: string, end: string, st: Status)
    ensures |KeysWithStatus(RowsInRange(att, roll, start, end), att, st)| > 0
            <==> exists k :: k in att && k.roll == roll && Between(k.date, start, end) && att[k] == st
  {
    var keys := KeysWithStatus(RowsInRange(att, roll, start, end), att, st);
    if exists k :: k in att && k.roll == roll && Between(k.date, start, end) && att[k] == st {
      var k :| k in att && k.roll == roll && Between(k.date, start, end) && att[k] == st;
      assert k in RowsInRange(att, roll, start, end);
      assert k in keys;
    }
    if keys != {} {
      var k :| k in keys;
      assert k in RowsInRange(att, roll, start, end);
    }
  }

  /** The row a student contributes, if any: always one in the single-date
      view; in the range view only when one of the four counts is positive. */
  function SummaryRowOf(s: Student, att: map<Key, Status>, q: Query): Option<SummaryRow> {
    match q
    case SingleDate(date) => Some(StatusRow(s.roll, s.name, StatusOn(att, s.roll, date)))
    case DateRange(start, end) =>
      var p := RangeCount(att, s.roll, start, end, Present);
      var a := RangeCount(att, s.roll, start, end, Absent);
      var m := RangeCount(att, s.roll, start, end, HalfDayMorning);
      var e := RangeCount(att, s.roll, start, end, HalfDayEvening);
      if p > 0 || a > 0 || m > 0 || e > 0 then Some(CountRow(s.roll, s.name, p, a, m, e)) else None
  }

  /** What one student appends to `$summary`: its row, or nothing. */
  function Contribution(s: Student, att: map<Key, Status>, q: Query): seq<SummaryRow> {
    match SummaryRowOf(s, att, q)
    case Some(r) => [r]
    case None => []
  }

  /** `$summary` after the loop over `rows`. */
  function SummaryOf(rows: seq<Student>, att: map<Key, Status>, q: Query): seq<SummaryRow> {
    if rows == [] then []
    else
      var n := |rows| - 1;
      SummaryOf(rows[..n], att, q) + Contribution(rows[n], att, q)
  }

  /** The loop over the roster in roll order (summary.php:86-137). */
  method BuildSummary(db: Database, q: Query) returns (summary: seq<SummaryRow>)
    requires db.Valid()
    ensures summary == SummaryOf(db.students, db.attendance, q)
  {
    var rows, att := db.students, db.attendance;
    summary := [];
    var i := 0;
    while i < |rows|
      invariant 0 <= i <= |rows|
      invariant summary == SummaryOf(rows[..i], att, q)
    {
      var s := rows[i];
      assert rows[..i + 1][..i] == rows[..i];
      assert SummaryOf(rows[..i + 1], att, q) == summary + Contribution(s, att, q);
      match q {
        case SingleDate(date) =>
          summary := summary + [StatusRow(s.roll, s.name, StatusOn(att, s.roll, date))];
        case DateRange(start, end) =>
          var present := RangeCount(att, s.roll, start, end, Present);
          var absent := RangeCount(att, s.roll, start, end, Absent);
          var halfDayMorning := RangeCount(att, s.roll, start, end, HalfDayMorning);
          var halfDayEvening := RangeCount(att, s.roll, start, end, HalfDayEvening);
          if present > 0 || absent > 0 || halfDayMorning > 0 || halfDayEvening > 0 {
            summary := summary + [CountRow(s.roll, s.name, present, absent, halfDayMorning, halfDayEvening)];
          }
      }
      i := i + 1;
    }
    assert rows[..|rows|] == rows;
  }

  // ---------------------------------------------------------------------------
  // What the rows mean
  // ---------------------------------------------------------------------------

  /** The single-date view has one row per student, in roster order, carrying
      the stored code of that date or "N/A" when there is no row (never a
      default of present). */
  lemma {:induction false} SingleViewShape(rows: seq<Student>, att: map<Key, Status>, date: string)
    ensures |SummaryOf(rows, att, SingleDate(date))| == |rows|
    ensures forall i :: 0 <= i < |rows| ==>
              SummaryOf(rows, att, SingleDate(date))[i] == StatusRow(rows[i].roll, rows[i].name, StatusOn(att, rows[i].roll, date))
    decreases |rows|
  {
    if rows != [] {
      var n := |rows| - 1;
      SingleViewShape(rows[..n], att, date);
    }
  }

  lemma DisjointUnionSize(x: set<Key>, y: set<Key>)
    requires x * y == {}
    ensures |x + y| == |x| + |y|
  {
  }

  /** Every stored key has exactly one of the four statuses, so the four groups
      split any set of stored keys. */
  lemma StatusGroupsSplit(keys: set<Key>, att: map<Key, Status>)
    requires keys <= att.Keys
    ensures |KeysWithStatus(keys, att, Present)| + |KeysWithStatus(keys, att, Absent)|
            + |KeysWithStatus(keys, att, HalfDayMorning)| + |KeysWithStatus(keys, att, HalfDayEvening)| == |keys|
  {
    var p, a := KeysWithStatus(keys, att, Present), KeysWithStatus(keys, att, Absent);
    var m, e := KeysWithStatus(keys, att, HalfDayMorning), KeysWithStatus(keys, att, HalfDayEvening);
    forall k | k in keys ensures k in p || k in a || k in m || k in e {
      assert k in att;
    }
    assert keys == p + a + m + e;
    assert p * a == {} && (p + a) * m == {} && (p + a + m) * e == {};
    DisjointUnionSize(p, a);
    DisjointUnionSize(p + a, m);
    DisjointUnionSize(p + a + m, e);
  }

  /** The four counts of a student split the student's rows in the range. */
  lemma RangeCountsPartition(att: map<Key, Status>, roll: string, start: string, end: string)
    ensures RangeCount(att, roll, start, end, Present) + RangeCount(att, roll, start, end, Absent)
            + RangeCount(att, roll, start, end, HalfDayMorning) + RangeCount(att, roll, start, end, HalfDayEvening)
            == |RowsInRange(att, roll, start, end)|
  {
    StatusGroupsSplit(RowsInRange(att, roll, start, end), att);
  }

  /** The range view lists a student exactly when the student has at least
      one row in the range. */
  lemma RangeRowIffRecorded(s: Student, att: map<Key, Status>, start: string, end: string)
    ensures SummaryRowOf(s, att, DateRange(start, end)).Some? <==> RowsInRange(att, s.roll, start, end) != {}
  {
    RangeCountsPartition(att, s.roll, start, end);
  }

  lemma InSummary(rows: seq<Student>, att: map<Key, Status>, q: Query, r: SummaryRow)
    ensures r in SummaryOf(rows, att, q) <==> exists i :: 0 <= i < |rows| && SummaryRowOf(rows[i], att, q) == Some(r)
  {
    if r in SummaryOf(rows, att, q) {
      var i := SummaryRowSource(rows, att, q, r);
    }
    if exists i :: 0 <= i < |rows| && SummaryRowOf(rows[i], att, q) == Some(r) {
      var i :| 0 <= i < |rows| && SummaryRowOf(rows[i], att, q) == Some(r);
      SummaryRowKept(rows, att, q, i);
    }
  }

  /** Each summary row comes from some student of the roster. */
  lemma {:induction false} SummaryRowSource(rows: seq<Student>, att: map<Key, Status>, q: Query, r: SummaryRow) returns (i: nat)
    requires r in SummaryOf(rows, att, q)
    ensures i < |rows| && SummaryRowOf(rows[i], att, q) == Some(r)
    decreases |rows|
  {
    var n := |rows| - 1;
    var prefix := rows[..n];
    if r in SummaryOf(prefix, att, q) {
      i := SummaryRowSource(prefix, att, q, r);
      assert prefix[i] == rows[i];
    } else {
      assert r in Contribution(rows[n], att, q);
      i := n;
    }
  }

  /** Each student's row, when it has one, is in the summary. */
  lemma {:induction false} SummaryRowKept(rows: seq<Student>, att: map<Key, Status>, q: Query, i: nat)
    requires i < |rows| && SummaryRowOf(rows[i], att, q).Some?
    ensures SummaryRowOf(rows[i], att, q).value in SummaryOf(rows, att, q)
    decreases |rows|
  {
    var n := |rows| - 1;
    var prefix := rows[..n];
    if i < n {
      assert prefix[i] == rows[i];
      SummaryRowKept(prefix, att, q, i);
    } else {
      assert SummaryRowOf(rows[i], att, q).value in Contribution(rows[n], att, q);
    }
  }

  /** A rostered student is in the range view exactly when it has a row whose
      date lies in the range. */
  lemma RangeViewListsRecordedStudents(rows: seq<Student>, att: map<Key, Status>, start: string, end: string, x: Student)
    requires x in rows
    ensures (exists r :: r in SummaryOf(rows, att, DateRange(start, end)) && r.roll == x.roll)
            <==> exists k :: k in att && k.roll == x.roll && Between(k.date, start, end)
  {
    var q := DateRange(start, end);
    var i :| 0 <= i < |rows| && rows[i] == x;
    RangeRowIffRecorded(x, att, start, end);
    if exists k :: k in att && k.roll == x.roll && Between(k.date, start, end) {
      var k :| k in att && k.roll == x.roll && Between(k.date, start, end);
      assert k in RowsInRange(att, x.roll, start, end);
      var r := SummaryRowOf(x, att, q).value;
      InSummary(rows, att, q, r);
    }
    if exists r :: r in SummaryOf(rows, att, q) && r.roll == x.roll {
      var r :| r in SummaryOf(rows, att, q) && r.roll == x.roll;
      InSummary(rows, att, q, r);
      var j :| 0 <= j < |rows| && SummaryRowOf(rows[j], att, q) == Some(r);
      RangeRowIffRecorded(rows[j], att, start, end);
      var k :| k in RowsInRange(att, rows[j].roll, start, end);
    }
  }

  /** Both views keep roll order. */
  predicate RowsInRollOrder(sum: seq<SummaryRow>) {
    forall i, j :: 0 <= i < j < |sum| ==> StrLess(sum[i].roll, sum[j].roll)
  }

  lemma AppendAfterAll(l: seq<SummaryRow>, r: SummaryRow)
    requires RowsInRollOrder(l)
    requires forall i :: 0 <= i < |l| ==> StrLess(l[i].roll, r.roll)
    ensures RowsInRollOrder(l + [r])
  {
    var sum := l + [r];
    forall i, j | 0 <= i < j < |sum| ensures StrLess(sum[i].roll, sum[j].roll) {
      assert sum[i] == l[i];
      if j < |l| { assert sum[j] == l[j]; }
    }
  }

  /** Every row of the summary of a roll-ordered prefix is before a later roll. */
  lemma RowsBeforeLater(rows: seq<Student>, att: map<Key, Status>, q: Query, n: nat, l: seq<SummaryRow>)
    requires SortedByRoll(rows) && n < |rows|
    requires l == SummaryOf(rows[..n], att, q)
    ensures forall i :: 0 <= i < |l| ==> StrLess(l[i].roll, rows[n].roll)
  {
    var prefix := rows[..n];
    forall i | 0 <= i < |l| ensures StrLess(l[i].roll, rows[n].roll) {
      InSummary(prefix, att, q, l[i]);
      var j :| 0 <= j < n && SummaryRowOf(prefix[j], att, q) == Some(l[i]);
      assert prefix[j] == rows[j];
    }
  }

  /** Both views keep roll order. */
  lemma {:induction false} SummaryInRollOrder(rows: seq<Student>, att: map<Key, Status>, q: Query)
    requires SortedByRoll(rows)
    ensures RowsInRollOrder(SummaryOf(rows, att, q))
    decreases |rows|
  {
    if rows != [] {
      var n := |rows| - 1;
      var prefix := rows[..n];
      assert SortedByRoll(prefix);
      SummaryInRollOrder(prefix, att, q);
      var row := SummaryRowOf(rows[n], att, q);
      if row.Some? {
        assert row.value.roll == rows[n].roll;
        assert SummaryOf(rows, att, q) == SummaryOf(prefix, att, q) + [row.value];
        var l := SummaryOf(prefix, att, q);
        RowsBeforeLater(rows, att, q, n, l);
        AppendAfterAll(l, row.value);
      }
    }
  }

  lemma StrLessEqTransitive(a: string, b: string, c: string)
    requires StrLessEq(a, b) && StrLessEq(b, c)
    ensures StrLessEq(a, c)
  {
    if a != b && b != c { StrLessTransitive(a, b, c); }
  }

  /** A range whose end is before its start contains no date, so the range
      view is empty; this is why the custom filter swaps an inverted range. */
  lemma {:induction false} InvertedRangeIsEmpty(rows: seq<Student>, att: map<Key, Status>, start: string, end: string)
    requires StrLess(end, start)
    ensures SummaryOf(rows, att, DateRange(start, end)) == []
    decreases |rows|
  {
    if rows != [] {
      var n := |rows| - 1;
      InvertedRangeIsEmpty(rows[..n], att, start, end);
      forall k | k in att && Between(k.date, start, end) ensures false {
        StrLessEqTransitive(start, k.date, end);
        StrLessTrichotomy(start, end);
      }
      assert RowsInRange(att, rows[n].roll, start, end) == {};
      RangeRowIffRecorded(rows[n], att, start, end);
    }
  }

  // ---------------------------------------------------------------------------
  // The status cell of the single-date table (summary.php:474-497)
  // ---------------------------------------------------------------------------

  datatype Cell = Cell(text: string, cssClass: string)

  function SummaryStatusCell(status: string): (c: Cell)
    ensures status == "N/A" ==> c == Cell("N/A", "status-na")
    ensures status != "N/A" ==> c.cssClass == "status-" + AsciiLower(status)
    ensures ParseStatus(status).None? ==> c.text == status
  {
    var cls := "status-" + AsciiLower(status);
    if status == "p" then Cell("Present", cls)
    else if status == "a" then Cell("Absent", cls)
    else if status == "hm" then Cell("#", cls)
    else if status == "he" then Cell("Evening", cls)
    else if status == "N/A" then Cell("N/A", "status-na")
    else Cell(status, cls)
  }

  /** The cell of a stored code is styled by the code itself, and the four codes
      and "N/A" show five different texts. */
  lemma SummaryStatusCellIdentifies(a: Status, b: Status)
    ensures SummaryStatusCell(Code(a)).cssClass == "status-" + Code(a)
    ensures SummaryStatusCell(Code(a)).text == SummaryStatusCell(Code(b)).text ==> a == b
    ensures SummaryStatusCell(Code(a)).text != SummaryStatusCell("N/A").text
  {
  }
}
