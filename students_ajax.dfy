/** The AJAX roster handlers of students.php: `sanitize_input` and the `add`,
    `edit` and `delete` actions with their JSON answers (students.php:17-95). */
module StudentsAjax {
  import opened PhpText
  import opened Schema

  // ---------------------------------------------------------------------------
  // sanitize_input (students.php:17-19)
  // ---------------------------------------------------------------------------

  /** htmlspecialchars(stripslashes(trim(data)), ENT_QUOTES, 'UTF-8'): the result
      is safe to place in HTML text or a quoted attribute, and decoding the
      entities gives back the trimmed, unslashed input. */
  function SanitizeInput(data: string): (r: string)
    ensures IsHtmlSafe(r)
    ensures DecodeSpecialChars(r) == StripSlashes(Trim(data))
  {
    var s := StripSlashes(Trim(data));
    HtmlSpecialCharsIsSafe(s);
    DecodeUndoesHtmlSpecialChars(s);
    HtmlSpecialChars(s)
  }

  /** PHP `empty()` sees the sanitised value exactly as it would see the trimmed,
      unslashed one: escaping neither creates nor hides "" or "0". */
  lemma SanitizedEmptyIff(data: string)
    ensures PhpEmpty(SanitizeInput(data)) <==> PhpEmpty(StripSlashes(Trim(data)))
  {
    var s := StripSlashes(Trim(data));
    assert SanitizeInput(data) == HtmlSpecialChars(s);
    EscapedZeroIff(s);
  }

  /** Only "0" escapes to "0" (and only "" to "", by the length bound). */
  lemma EscapedZeroIff(s: string)
    ensures HtmlSpecialChars(s) == "0" <==> s == "0"
  {
    if s != [] {
      var head, tail := EntityOf(s[0]), HtmlSpecialChars(s[1..]);
      assert HtmlSpecialChars(s) == head + tail;
      if HtmlSpecialChars(s) == "0" {
        assert |head| == 1 && |tail| == 0;
        assert s[1..] == [];
        assert head == [s[0]];
      }
    }
  }

  // ---------------------------------------------------------------------------
  // The actions
  // ---------------------------------------------------------------------------

  /** The JSON answer: `success`, `message`, and for a successful add the
      stored `roll` and `name`. */
  datatype JsonReply = JsonReply(success: bool, message: string, echoed: Option<Student>)

  /** action=add: both sanitised fields must be non-empty; the insert reports a
      duplicate roll (code 1062) by name and any other error by its text. */
  method AjaxAdd(db: Database, rawRoll: string, rawName: string) returns (reply: JsonReply)
    requires db.Valid()
    modifies db
    ensures db.Valid()
    ensures var roll, name := SanitizeInput(rawRoll), SanitizeInput(rawName);
            if PhpEmpty(roll) || PhpEmpty(name) then
              reply == JsonReply(false, "Roll No. and Name are required.", None) && db.State() == old(db.State())
            else
              match InsertStudent(old(db.State()), roll, name)
              case Ok(t) => db.State() == t && reply == JsonReply(true, "Student added successfully!", Some(Student(roll, name)))
              case Err(e) => db.State() == old(db.State())
                             && reply == JsonReply(false, if ErrorCode(e) == 1062 then "Duplicate Roll No." else "Database error: " + ErrorMessage(e), None)
  {
    var roll := SanitizeInput(rawRoll);
    var name := SanitizeInput(rawName);
    if PhpEmpty(roll) || PhpEmpty(name) {
      return JsonReply(false, "Roll No. and Name are required.", None);
    }
    var err := db.Insert(roll, name);
    if err.None? {
      reply := JsonReply(true, "Student added successfully!", Some(Student(roll, name)));
    } else {
      reply := JsonReply(false, if ErrorCode(err.value) == 1062 then "Duplicate Roll No." else "Database error: " + ErrorMessage(err.value), None);
    }
  }

  /** action=edit: both sanitised fields must be non-empty; success is
      `affected_rows > 0`, so an unknown roll or an unchanged name answers
      "No changes made."; a failing UPDATE answers with its error text. */
  method AjaxEdit(db: Database, rawRoll: string, rawName: string) returns (reply: JsonReply)
    requires db.Valid()
    modifies db
    ensures db.Valid()
    ensures var roll, name := SanitizeInput(rawRoll), SanitizeInput(rawName);
            if PhpEmpty(roll) || PhpEmpty(name) then
              reply == JsonReply(false, "Roll No. and Name are required.", None) && db.State() == old(db.State())
            else
              match UpdateName(old(db.State()), roll, name)
              case Ok((t, affected)) =>
                db.State() == t
                && reply == JsonReply(affected > 0, if affected > 0 then "Updated successfully." else "No changes made.", None)
              case Err(e) => db.State() == old(db.State()) && reply == JsonReply(false, "Error: " + ErrorMessage(e), None)
  {
    var roll := SanitizeInput(rawRoll);
    var name := SanitizeInput(rawName);
    if PhpEmpty(roll) || PhpEmpty(name) {
      return JsonReply(false, "Roll No. and Name are required.", None);
    }
    var r := db.Update(roll, name);
    match r {
      case Ok(affected) =>
        reply := JsonReply(affected > 0, if affected > 0 then "Updated successfully." else "No changes made.", None);
      case Err(e) =>
        reply := JsonReply(false, "Error: " + ErrorMessage(e), None);
    }
  }

  /** action=delete: the sanitised roll must be non-empty; the attendance rows
      and then the student row are deleted in one transaction. `attFault` and
      `stuFault` are the errors of the two DELETE statements, if they fail; on
      either the transaction is rolled back and nothing changes. */
  method AjaxDelete(db: Database, rawRoll: string, attFault: Option<string>, stuFault: Option<string>) returns (reply: JsonReply)
    requires db.Valid()
    modifies db
    ensures db.Valid()
    ensures var roll := SanitizeInput(rawRoll);
            if PhpEmpty(roll) then
              reply == JsonReply(false, "Roll No. is required.", None) && db.State() == old(db.State())
            else if attFault.Some? then
              reply == JsonReply(false, "Error: " + attFault.value, None) && db.State() == old(db.State())
            else if stuFault.Some? then
              reply == JsonReply(false, "Error: " + stuFault.value, None) && db.State() == old(db.State())
            else
              reply == JsonReply(true, "Deleted successfully.", None)
              && db.State() == DeleteStudent(DeleteAttendanceOf(old(db.State()), roll), roll)
  {
    var roll := SanitizeInput(rawRoll);
    if PhpEmpty(roll) {
      return JsonReply(false, "Roll No. is required.", None);
    }
    var saved := db.State();
    if attFault.Some? {
      return JsonReply(false, "Error: " + attFault.value, None);
    }
    db.DeleteAttendance(roll);
    if stuFault.Some? {
      db.Restore(saved);
      return JsonReply(false, "Error: " + stuFault.value, None);
    }
    db.Delete(roll);
    reply := JsonReply(true, "Deleted successfully.", None);
  }

  // ---------------------------------------------------------------------------
  // What the delete does
  // ---------------------------------------------------------------------------

  /** Deleting the attendance rows first changes nothing about the end result:
      the cascade of the student delete would remove them anyway. After it the
      roll is neither on the roster nor in any attendance row, and everything
      else is kept. */
  lemma DeleteAttendanceThenStudent(t: Tables, roll: string)
    requires TablesValid(t)
    ensures DeleteStudent(DeleteAttendanceOf(t, roll), roll) == DeleteStudent(t, roll)
    ensures var r := DeleteStudent(t, roll);
            && roll !in Rolls(r.students)
            && (forall k :: k in r.attendance ==> k.roll != roll)
            && (forall s :: s in t.students && s.roll != roll ==> s in r.students)
            && (forall k :: k in t.attendance && k.roll != roll ==> k in r.attendance && r.attendance[k] == t.attendance[k])
  {
    var a := DeleteAttendanceOf(t, roll);
    var r1, r2 := DeleteStudent(a, roll), DeleteStudent(t, roll);
    assert r1.students == r2.students;
    assert r1.attendance.Keys == r2.attendance.Keys;
    assert r1.attendance == r2.attendance;
  }
}
