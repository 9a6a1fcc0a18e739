/** The PHP string built-ins the register relies on: trim, stripslashes (with its
    inverse addslashes), htmlspecialchars with ENT_QUOTES (with a decoder for the
    entities it produces), empty() on strings, ASCII strtolower, and the byte-wise
    string comparison used both by PHP's `>` on non-numeric strings and by
    `ORDER BY` / `BETWEEN` in the model of the store. */
module PhpText {

  // ---------------------------------------------------------------------------
  // trim
  // ---------------------------------------------------------------------------

  /** The characters trim() removes when no character list is given:
      space, tab, line feed, carriage return, NUL and vertical tab. */
  predicate IsTrimChar(c: char) {
    c == ' ' || c == '\t' || c == '\n' || c == '\r' || c == '\0' || c == '\U{B}'
  }

  /** Drops leading trim characters. */
  function TrimLeft(s: string): (r: string)
    ensures |r| <= |s| && r == s[|s| - |r|..]
    ensures r == [] || !IsTrimChar(r[0])
    ensures forall i :: 0 <= i < |s| - |r| ==> IsTrimChar(s[i])
  {
    if s != [] && IsTrimChar(s[0]) then TrimLeft(s[1..]) else s
  }

  /** Drops trailing trim characters. */
  function TrimRight(s: string): (r: string)
    ensures |r| <= |s| && r == s[..|r|]
    ensures r == [] || !IsTrimChar(r[|r| - 1])
    ensures forall i :: |r| <= i < |s| ==> IsTrimChar(s[i])
  {
    if s != [] && IsTrimChar(s[|s| - 1]) then TrimRight(s[..|s| - 1]) else s
  }

  /** PHP trim($s): the input without its leading and trailing trim characters. */
  function Trim(s: string): (r: string)
    ensures |r| <= |s|
    ensures r == [] || (!IsTrimChar(r[0]) && !IsTrimChar(r[|r| - 1]))
  {
    TrimRight(TrimLeft(s))
  }

  /** Trim keeps one contiguous block of the input, starting after the leading
      trim characters, and drops only trim characters around it. */
  lemma TrimKeepsInnerBlock(s: string)
    ensures var r, k := Trim(s), |s| - |TrimLeft(s)|;
            && k + |r| <= |s| && s[k..k + |r|] == r
            && (forall i :: 0 <= i < k ==> IsTrimChar(s[i]))
            && (forall i :: k + |r| <= i < |s| ==> IsTrimChar(s[i]))
  {
    var l := TrimLeft(s);
    var k := |s| - |l|;
    InnerBlockOfSuffix(s, k, l, TrimRight(l));
  }

  lemma InnerBlockOfSuffix(s: string, k: nat, l: string, r: string)
    requires k <= |s| && l == s[k..]
    requires |r| <= |l| && r == l[..|r|]
    requires forall i :: |r| <= i < |l| ==> IsTrimChar(l[i])
    ensures k + |r| <= |s| && s[k..k + |r|] == r
    ensures forall i :: k + |r| <= i < |s| ==> IsTrimChar(s[i])
  {
    forall i | k + |r| <= i < |s| ensures IsTrimChar(s[i]) {
      assert s[i] == l[i - k];
    }
  }

  /** Trimming twice is trimming once. */
  lemma TrimIdempotent(s: string)
    ensures Trim(Trim(s)) == Trim(s)
  {
    var r := Trim(s);
    assert TrimLeft(r) == r;
    assert TrimRight(r) == r;
  }

  // ---------------------------------------------------------------------------
  // stripslashes / addslashes
  // ---------------------------------------------------------------------------

  /** PHP stripslashes($s): a backslash is dropped and the character after it is
      kept, except that `\0` becomes a NUL character; a lone trailing backslash
      disappears. */
  function StripSlashes(s: string): (r: string)
    ensures |r| <= |s|
    ensures '\\' !in s ==> r == s
  {
    if s == [] then []
    else if s[0] != '\\' then [s[0]] + StripSlashes(s[1..])
    else if |s| == 1 then []
    else [if s[1] == '0' then '\0' else s[1]] + StripSlashes(s[2..])
  }

  /** How PHP addslashes() writes one character: quotes and backslash get a
      backslash in front, NUL becomes `\0`. */
  function SlashedChar(c: char): (r: string)
    ensures 1 <= |r| <= 2
  {
    if c == '\'' || c == '"' || c == '\\' then ['\\', c]
    else if c == '\0' then ['\\', '0']
    else [c]
  }

  /** PHP addslashes($s). */
  function AddSlashes(s: string): (r: string)
    ensures |s| <= |r| <= 2 * |s|
  {
    if s == [] then [] else SlashedChar(s[0]) + AddSlashes(s[1..])
  }

  /** stripslashes undoes addslashes. */
  lemma {:induction false} StripSlashesUndoesAddSlashes(s: string)
    ensures StripSlashes(AddSlashes(s)) == s
  {
    if s != [] {
      var c, rest := s[0], AddSlashes(s[1..]);
      StripSlashesUndoesAddSlashes(s[1..]);
      var t := SlashedChar(c) + rest;
      if |SlashedChar(c)| == 1 {
        assert t[0] == c && c != '\\' && t[1..] == rest;
      } else {
        assert t[0] == '\\' && t[2..] == rest;
      }
    }
  }

  // ---------------------------------------------------------------------------
  // htmlspecialchars($s, ENT_QUOTES, 'UTF-8')
  // ---------------------------------------------------------------------------

  /** The replacement htmlspecialchars() with ENT_QUOTES (HTML 4.01 table) writes
      for one character. */
  function EntityOf(c: char): (r: string)
    ensures |r| >= 1
  {
    match c
    case '&' => "&amp;"
    case '"' => "&quot;"
    case '\'' => "&#039;"
    case '<' => "&lt;"
    case '>' => "&gt;"
    case _ => [c]
  }

  /** PHP htmlspecialchars($s, ENT_QUOTES, 'UTF-8') on a well-formed string. */
  function HtmlSpecialChars(s: string): (r: string)
    ensures |s| <= |r|
    ensures r == [] <==> s == []
  {
    if s == [] then [] else EntityOf(s[0]) + HtmlSpecialChars(s[1..])
  }

  /** A character that may not appear unescaped in HTML text or a quoted attribute. */
  predicate IsRawSpecial(c: char) {
    c == '<' || c == '>' || c == '"' || c == '\''
  }

  predicate HasPrefix(t: string, p: string) {
    |p| <= |t| && t[..|p|] == p
  }

  /** `t` starts with one of the five entities htmlspecialchars() produces. */
  predicate StartsWithEntity(t: string) {
    HasPrefix(t, "&amp;") || HasPrefix(t, "&quot;") || HasPrefix(t, "&#039;")
    || HasPrefix(t, "&lt;") || HasPrefix(t, "&gt;")
  }

  /** HTML-safe text: no raw special character, and every `&` opens an entity. */
  predicate IsHtmlSafe(t: string) {
    && (forall i :: 0 <= i < |t| ==> !IsRawSpecial(t[i]))
    && (forall i :: 0 <= i < |t| && t[i] == '&' ==> StartsWithEntity(t[i..]))
  }

  /** The output of htmlspecialchars() is HTML-safe. */
  lemma {:induction false} HtmlSpecialCharsIsSafe(s: string)
    ensures IsHtmlSafe(HtmlSpecialChars(s))
  {
    if s != [] {
      HtmlSpecialCharsIsSafe(s[1..]);
      var e, rest := EntityOf(s[0]), HtmlSpecialChars(s[1..]);
      var t := e + rest;
      assert t == HtmlSpecialChars(s);
      forall i | 0 <= i < |t| ensures !IsRawSpecial(t[i]) {
        if i >= |e| { assert t[i] == rest[i - |e|]; }
      }
      forall i | 0 <= i < |t| && t[i] == '&' ensures StartsWithEntity(t[i..]) {
        if i >= |e| {
          assert t[i..] == rest[i - |e|..];
        } else {
          assert i == 0;
          assert t[..|e|] == e;
        }
      }
    }
  }

  /** Decodes the five entities htmlspecialchars() writes; any other text is kept. */
  function DecodeSpecialChars(t: string): (r: string)
    ensures |r| <= |t|
  {
    if t == [] then []
    else if HasPrefix(t, "&amp;") then "&" + DecodeSpecialChars(t[5..])
    else if HasPrefix(t, "&quot;") then "\"" + DecodeSpecialChars(t[6..])
    else if HasPrefix(t, "&#039;") then "'" + DecodeSpecialChars(t[6..])
    else if HasPrefix(t, "&lt;") then "<" + DecodeSpecialChars(t[4..])
    else if HasPrefix(t, "&gt;") then ">" + DecodeSpecialChars(t[4..])
    else [t[0]] + DecodeSpecialChars(t[1..])
  }

  /** Decoding one escaped character in front of any text. */
  lemma DecodeEntityOf(c: char, rest: string)
    ensures DecodeSpecialChars(EntityOf(c) + rest) == [c] + DecodeSpecialChars(rest)
  {
    var e := EntityOf(c);
    var t := e + rest;
    assert t[..|e|] == e && t[|e|..] == rest;
    if |e| == 1 {
      assert t[0] == c && c != '&';
      assert !HasPrefix(t, "&amp;") && !HasPrefix(t, "&quot;") && !HasPrefix(t, "&#039;");
      assert !HasPrefix(t, "&lt;") && !HasPrefix(t, "&gt;");
    } else {
      assert t[0] == '&';
      EntityPrefixes(c, t);
    }
  }

  lemma EntityPrefixes(c: char, t: string)
    requires |EntityOf(c)| > 1 && HasPrefix(t, EntityOf(c))
    ensures c == '&' ==> HasPrefix(t, "&amp;")
    ensures c == '"' ==> !HasPrefix(t, "&amp;") && HasPrefix(t, "&quot;")
    ensures c == '\'' ==> !HasPrefix(t, "&amp;") && !HasPrefix(t, "&quot;") && HasPrefix(t, "&#039;")
    ensures c == '<' ==> !HasPrefix(t, "&amp;") && !HasPrefix(t, "&quot;") && !HasPrefix(t, "&#039;") && HasPrefix(t, "&lt;")
    ensures c == '>' ==> !HasPrefix(t, "&amp;") && !HasPrefix(t, "&quot;") && !HasPrefix(t, "&#039;") && !HasPrefix(t, "&lt;") && HasPrefix(t, "&gt;")
  {
    var e := EntityOf(c);
    assert t[..|e|] == e;
    assert t[1] == e[1];
  }

  /** Decoding what htmlspecialchars() wrote gives back its input: escaping loses nothing. */
  lemma {:induction false} DecodeUndoesHtmlSpecialChars(s: string)
    ensures DecodeSpecialChars(HtmlSpecialChars(s)) == s
  {
    if s != [] {
      DecodeUndoesHtmlSpecialChars(s[1..]);
      DecodeEntityOf(s[0], HtmlSpecialChars(s[1..]));
      assert s == [s[0]] + s[1..];
    }
  }

  // ---------------------------------------------------------------------------
  // empty() and strtolower() on strings
  // ---------------------------------------------------------------------------

  /** PHP empty($s) for a string: true for "" and also for "0". */
  predicate PhpEmpty(s: string)
    ensures |s| == 0 ==> PhpEmpty(s)
    ensures PhpEmpty(s) ==> |s| <= 1
    ensures |s| == 1 ==> (PhpEmpty(s) <==> s[0] == '0')
  {
    s == "" || s == "0"
  }

  /** PHP strtolower($s): ASCII upper-case letters become lower-case, the rest is kept. */
  function AsciiLower(s: string): (r: string)
    ensures |r| == |s|
    ensures forall i :: 0 <= i < |s| ==> r[i] == (if 'A' <= s[i] <= 'Z' then (s[i] as int + 32) as char else s[i])
  {
    if s == [] then [] else [if 'A' <= s[0] <= 'Z' then (s[0] as int + 32) as char else s[0]] + AsciiLower(s[1..])
  }

  // ---------------------------------------------------------------------------
  // String order
  // ---------------------------------------------------------------------------

  /** Lexicographic order on character codes: what PHP's `<` / `>` does on two
      non-numeric strings and what the model of the store uses for ORDER BY and
      BETWEEN. A proper prefix comes first. */
  predicate StrLess(a: string, b: string) {
    if |a| == 0 then |b| > 0
    else if |b| == 0 then false
    else if a[0] != b[0] then a[0] < b[0]
    else StrLess(a[1..], b[1..])
  }

  predicate StrLessEq(a: string, b: string) {
    a == b || StrLess(a, b)
  }

  lemma {:induction false} StrLessIrreflexive(a: string)
    ensures !StrLess(a, a)
  {
    if |a| > 0 { StrLessIrreflexive(a[1..]); }
  }

  lemma {:induction false} StrLessTransitive(a: string, b: string, c: string)
    requires StrLess(a, b) && StrLess(b, c)
    ensures StrLess(a, c)
  {
    if |a| > 0 && a[0] == b[0] && b[0] == c[0] {
      StrLessTransitive(a[1..], b[1..], c[1..]);
    }
  }

  /** Any two different strings are ordered one way or the other, never both. */
  lemma {:induction false} StrLessTrichotomy(a: string, b: string)
    ensures a == b || StrLess(a, b) || StrLess(b, a)
    ensures !(StrLess(a, b) && StrLess(b, a))
  {
    if |a| > 0 && |b| > 0 && a[0] == b[0] {
      StrLessTrichotomy(a[1..], b[1..]);
      if a[1..] == b[1..] {
        assert a == [a[0]] + a[1..] && b == [b[0]] + b[1..];
      }
    }
  }
}
