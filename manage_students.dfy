/** The form-based roster page manage_students.php: its own `sanitize_input`,
    the add, edit and delete handlers (manage_students.php:23-119), which check
    each statement's result instead of using a transaction, and the roll-ordered
    listing (manage_students.php:123). */
module ManageStudents {
  import opened PhpText
  import opened Schema
  import StudentsAjax

  /** sanitize_input written as three reassignments of `$data`; it computes the
      same string as the one-expression version of students.php. */
  method SanitizeInput(data: string) returns (r: string)
    ensures r == StudentsAjax.SanitizeInput(data)
    ensures IsHtmlSafe(r)
  {
    r := Trim(data);
    r := StripSlashes(r);
    r := HtmlSpecialChars(r);
  }

  /** POST add: the sanitised pair is inserted with no emptiness check; a failing
      insert prints "Error adding student: " and the error, and changes nothing. */
  method FormAdd(db: Database, rawRoll: string, rawName: string) returns (message: Option<string>)
    requires db.Valid()
    modifies db
    ensures db.Valid()
    ensures var roll, name := StudentsAjax.SanitizeInput(rawRoll), StudentsAjax.SanitizeInput(rawName);
            match InsertStudent(old(db.State()), roll, name)
            case Ok(t) => db.State() == t && message == None
            case Err(e) => db.State() == old(db.State()) && message == Some("Error adding student: " + ErrorMessage(e))
  {
    var roll := SanitizeInput(rawRoll);
    var name := SanitizeInput(rawName);
    var err := db.Insert(roll, name);
    if err.Some? {
      message := Some("Error adding student: " + ErrorMessage(err.value));
    } else {
      message := None;
    }
  }

  /** POST edit: UPDATE ... SET name WHERE roll; an unknown roll changes nothing
      and prints nothing; a failing UPDATE prints "Error updating student: ". */
  method FormEdit(db: Database, rawRoll: string, rawName: string) returns (message: Option<string>)
    requires db.Valid()
    modifies db
    ensures db.Valid()
    ensures var roll, name := StudentsAjax.SanitizeInput(rawRoll), StudentsAjax.SanitizeInput(rawName);
            match UpdateName(old(db.State()), roll, name)
            case Ok((t, _)) => db.State() == t && message == None
            case Err(e) => db.State() == old(db.State()) && message == Some("Error updating student: " + ErrorMessage(e))
  {
    var roll := SanitizeInput(rawRoll);
    var name := SanitizeInput(rawName);
    var r := db.Update(roll, name);
    if r.Err? {
      message := Some("Error updating student: " + ErrorMessage(r.error));
    } else {
      message := None;
    }
  }

  /** The tables after the two DELETE statements of the form handler, run one
      after the other with no transaction: a failing statement changes nothing
      but does not stop the other one. */
  function FormDeleteEffect(t: Tables, roll: string, attFails: bool, stuFails: bool): (r: Tables)
    requires TablesValid(t)
    ensures TablesValid(r)
    ensures !stuFails ==> r == DeleteStudent(t, roll)
    ensures attFails && stuFails ==> r == t
    ensures !attFails && stuFails ==> r == DeleteAttendanceOf(t, roll)
  {
    var afterAtt := if attFails then t else DeleteAttendanceOf(t, roll);
    StudentsAjax.DeleteAttendanceThenStudent(t, roll);
    if stuFails then afterAtt else DeleteStudent(afterAtt, roll)
  }

  /** POST delete: DELETE FROM attendance, then DELETE FROM students, each
      reporting its own failure. `attFault` and `stuFault` are the errors of the
      two statements, if they fail. */
  method FormDelete(db: Database, rawRoll: string, attFault: Option<string>, stuFault: Option<string>) returns (messages: seq<string>)
    requires db.Valid()
    modifies db
    ensures db.Valid()
    ensures db.State() == FormDeleteEffect(old(db.State()), StudentsAjax.SanitizeInput(rawRoll), attFault.Some?, stuFault.Some?)
    ensures messages == (if attFault.Some? then ["Error deleting attendance records: " + attFault.value] else [])
                        + (if stuFault.Some? then ["Error deleting student: " + stuFault.value] else [])
  {
    var roll := SanitizeInput(rawRoll);
    messages := [];
    if attFault.None? {
      db.DeleteAttendance(roll);
    } else {
      messages := messages + ["Error deleting attendance records: " + attFault.value];
    }
    if stuFault.None? {
      db.Delete(roll);
    } else {
      messages := messages + ["Error deleting student: " + stuFault.value];
    }
  }

  /** Without a transaction a failing student delete leaves the student on the
      roster with its attendance already gone; a failing attendance delete is
      made up for by the cascade, so the outcome is the same as with no failure. */
  lemma FormDeleteFailureOutcomes(t: Tables, roll: string)
    requires TablesValid(t)
    ensures var r := FormDeleteEffect(t, roll, false, true);
            && r.students == t.students
            && forall k :: k in r.attendance ==> k.roll != roll
    ensures FormDeleteEffect(t, roll, true, false) == FormDeleteEffect(t, roll, false, false)
    ensures var r := FormDeleteEffect(t, roll, false, false);
            roll !in Rolls(r.students) && forall k :: k in r.attendance ==> k.roll != roll
  {
  }

  /** SELECT * FROM students ORDER BY roll: every rostered student, once, in roll
      order. */
  method ListStudents(db: Database) returns (rows: seq<Student>)
    requires db.Valid()
    ensures SortedByRoll(rows)
    ensures forall s :: s in rows <==> s in db.students
  {
    rows := db.students;
  }
}
