/** The checks the registration form goes through before the database is
    consulted, and the per-role table of profile fields that may be edited.
    Character classes are restricted to ASCII (see README). */
module Validation {
  import opened Common

  /** JavaScript `\s`, restricted to its ASCII members. */
  predicate IsSpace(c: char)
  {
    c == ' ' || c == '\t' || c == '\n' || c == '\U{000B}' || c == '\U{000C}' || c == '\r'
  }

  /** The characters that JavaScript's `.` does not match. */
  predicate IsLineTerminator(c: char)
  {
    c == '\n' || c == '\r' || c == '\U{2028}' || c == '\U{2029}'
  }

  predicate IsLower(c: char) { 'a' <= c <= 'z' }
  predicate IsUpper(c: char) { 'A' <= c <= 'Z' }
  predicate IsDigit(c: char) { '0' <= c <= '9' }

  /** `[\W_]`: anything but an ASCII letter or digit. */
  predicate IsSymbol(c: char) { !IsLower(c) && !IsUpper(c) && !IsDigit(c) }

  // ---------------------------------------------------------------- email

  /** `[^\s@]+`: a non-empty run without whitespace or `@`. */
  predicate IsRun(s: string)
  {
    |s| > 0 && forall i :: 0 <= i < |s| ==> !IsSpace(s[i]) && s[i] != '@'
  }

  /** The regular expression `^[^\s@]+@[^\s@]+\.[^\s@]+$`, read literally:
      some split of the whole string into local part, `@`, domain, `.`,
      top-level part. */
  ghost predicate EmailPattern(s: string)
  {
    exists l, d, t :: IsRun(l) && IsRun(d) && IsRun(t) && s == l + "@" + d + "." + t
  }

  /** The email check as a scan: the part before the first `@` is a run, and
      the rest is a run of at least three characters with a `.` that is
      neither its first nor its last character. */
  predicate IsValidEmail(s: string)
  {
    '@' in s &&
    var a := FirstIndex(s, '@');
    var rest := s[a + 1..];
    IsRun(s[..a]) && IsRun(rest) && |rest| >= 3 && '.' in rest[1..|rest| - 1]
  }

  lemma RunPrefix(s: string, j: nat)
    requires IsRun(s) && 0 < j <= |s|
    ensures IsRun(s[..j])
  {
    assert forall k :: 0 <= k < j ==> s[..j][k] == s[k];
  }

  lemma RunSuffix(s: string, i: nat)
    requires IsRun(s) && i < |s|
    ensures IsRun(s[i..])
  {
    assert forall k :: 0 <= k < |s| - i ==> s[i..][k] == s[i + k];
  }

  lemma ValidEmailMatches(s: string)
    requires IsValidEmail(s)
    ensures EmailPattern(s)
  {
    var a := FirstIndex(s, '@');
    var rest := s[a + 1..];
    var mid := rest[1..|rest| - 1];
    var q := FirstIndex(mid, '.');
    var p := q + 1;
    assert rest[p] == '.' by {
      assert mid[q] == rest[p];
    }
    var l, d, t := s[..a], rest[..p], rest[p + 1..];
    RunPrefix(rest, p);
    RunSuffix(rest, p + 1);
    assert rest == d + "." + t by { SplitAround(rest, p); }
    assert s == l + "@" + rest by { SplitAround(s, a); }
    assert s == l + "@" + d + "." + t;
  }

  lemma SplitAround<T>(s: seq<T>, i: nat)
    requires i < |s|
    ensures s == s[..i] + [s[i]] + s[i + 1..]
  {
  }

  lemma MatchesValidEmail(s: string, l: string, d: string, t: string)
    requires IsRun(l) && IsRun(d) && IsRun(t) && s == l + "@" + d + "." + t
    ensures IsValidEmail(s)
  {
    assert s[|l|] == '@';
    var a := FirstIndex(s, '@');
    assert forall k :: 0 <= k < |l| ==> s[k] == l[k];
    assert forall m :: |l| < m <= |s| ==> s[..m][|l|] == '@';
    assert s[..a] == l;
    var rest := s[a + 1..];
    assert rest == d + "." + t;
    assert rest[1..|rest| - 1][|d| - 1] == '.';
  }

  /** The scan accepts exactly the strings the regular expression matches. */
  lemma EmailCheckIsPattern(s: string)
    ensures IsValidEmail(s) <==> EmailPattern(s)
  {
    if IsValidEmail(s) {
      ValidEmailMatches(s);
    }
    if EmailPattern(s) {
      var l, d, t :| IsRun(l) && IsRun(d) && IsRun(t) && s == l + "@" + d + "." + t;
      MatchesValidEmail(s, l, d, t);
    }
  }

  /** The tables' `CHECK (instr(email, '@') > 1)`: an `@` occurs and the
      string does not start with one. */
  predicate SchemaEmail(s: string)
  {
    '@' in s && s[0] != '@'
  }

  /** `instr` is 1-based and finds the first `@`, so the CHECK says the
      first `@` sits at index 1 or later. */
  lemma SchemaEmailIsInstr(s: string)
    ensures SchemaEmail(s) <==> '@' in s && FirstIndex(s, '@') > 0
  {
    if '@' in s && s[0] == '@' {
      assert FirstIndex(s, '@') == 0;
    }
  }

  /** Every address the form accepts satisfies the tables' CHECK. */
  lemma ValidEmailFitsSchema(s: string)
    requires IsValidEmail(s)
    ensures SchemaEmail(s)
  {
    assert IsRun(s[..FirstIndex(s, '@')]);
    assert s[..FirstIndex(s, '@')][0] == s[0];
  }

  // ------------------------------------------------------------- password

  predicate HasLower(p: string) { exists i :: 0 <= i < |p| && IsLower(p[i]) }
  predicate HasUpper(p: string) { exists i :: 0 <= i < |p| && IsUpper(p[i]) }
  predicate HasDigit(p: string) { exists i :: 0 <= i < |p| && IsDigit(p[i]) }
  predicate HasSymbol(p: string) { exists i :: 0 <= i < |p| && IsSymbol(p[i]) }

  /** A single line: no character that `.` refuses. */
  predicate OneLine(p: string) { forall i :: 0 <= i < |p| ==> !IsLineTerminator(p[i]) }

  /** JavaScript's `length`, and the count `.{8,}` sees: UTF-16 code units,
      two for a character at U+10000 or above. */
  function Utf16Length(s: string): (n: nat)
    ensures |s| <= n <= 2 * |s|
  {
    if s == [] then 0 else (if s[0] >= '\U{10000}' then 2 else 1) + Utf16Length(s[1..])
  }

  /** One code unit per character, two for one at U+10000 or above: the
      count of a concatenation is the sum of the counts. */
  lemma {:induction false} Utf16LengthAppend(s: string, t: string)
    ensures Utf16Length(s + t) == Utf16Length(s) + Utf16Length(t)
    ensures Utf16Length([]) == 0
    ensures forall c: char :: Utf16Length([c]) == if c >= '\U{10000}' then 2 else 1
  {
    if s != [] {
      assert (s + t)[1..] == s[1..] + t;
      Utf16LengthAppend(s[1..], t);
    } else {
      assert s + t == t;
    }
    forall c: char ensures Utf16Length([c]) == if c >= '\U{10000}' then 2 else 1 {
      assert [c][1..] == [];
    }
  }

  /** A string counts as many code units as characters exactly when it has
      no character above U+FFFF. */
  lemma {:induction false} Utf16LengthBmp(s: string)
    ensures Utf16Length(s) == |s| <==> forall i :: 0 <= i < |s| ==> s[i] < '\U{10000}'
  {
    if s != [] {
      Utf16LengthBmp(s[1..]);
      assert forall i :: 1 <= i < |s| ==> s[i] == s[1..][i - 1];
    }
  }

  /** SQLite's `length()` of a text value: the characters before the first
      NUL, each counted once whatever its code point. */
  function SqliteLength(s: string): (n: nat)
    ensures n <= |s| && '\0' !in s[..n]
    ensures n < |s| ==> s[n] == '\0'
  {
    if s == [] || s[0] == '\0' then 0
    else
      var k := SqliteLength(s[1..]);
      assert s[..k + 1] == [s[0]] + s[1..][..k];
      k + 1
  }

  /** The password rule as a conjunction of character-class conditions. */
  predicate IsStrongPassword(p: string)
  {
    Utf16Length(p) >= 8 && OneLine(p) && HasLower(p) && HasUpper(p) && HasDigit(p) && HasSymbol(p)
  }

  /** A lookahead `(?=.*[C])` at the start of `p`: a character matching `C`
      is reached over characters that are not line terminators. */
  ghost predicate LookaheadFinds(p: string, member: char -> bool)
  {
    exists k :: 0 <= k < |p| && member(p[k]) && OneLine(p[..k])
  }

  /** `^(?=.*[a-z])(?=.*[A-Z])(?=.*\d)(?=.*[\W_]).{8,}$`, read literally. */
  ghost predicate PasswordPattern(p: string)
  {
    LookaheadFinds(p, IsLower) && LookaheadFinds(p, IsUpper) &&
    LookaheadFinds(p, IsDigit) && LookaheadFinds(p, IsSymbol) &&
    Utf16Length(p) >= 8 && OneLine(p)
  }

  /** The lookaheads reduce to plain membership because `.{8,}$` already
      forbids line terminators everywhere. (A character above U+FFFF is two
      code units to the pattern, each of them matched by `[\W_]`, and is a
      symbol here too.) */
  lemma PasswordRuleIsPattern(p: string)
    ensures IsStrongPassword(p) <==> PasswordPattern(p)
  {
    if OneLine(p) {
      forall k | 0 <= k <= |p| ensures OneLine(p[..k]) {
        assert forall m :: 0 <= m < k ==> p[..k][m] == p[m];
      }
    }
  }

  // ----------------------------------------------------------- the form

  datatype FormError = FieldRequired | InvalidEmail | PasswordTooShort | WeakPassword

  /** Some field of the registration form is empty. */
  predicate FormIncomplete(email: string, password: string, name: string, surname: string,
                           studClass: Option<string>)
  {
    email == "" || password == "" || name == "" || surname == "" || studClass == Some("")
  }

  /** The checks of the registration form, in the order the handler makes
      them; the first that fails names the error. `studClass` is `None`
      when the form does not send it (the professor form). The separate
      length check only decides the message: a password the pattern accepts
      is long enough. */
  function CheckForm(email: string, password: string, name: string, surname: string,
                     studClass: Option<string>): (r: Option<FormError>)
    ensures r == None <==>
      !FormIncomplete(email, password, name, surname, studClass) && EmailPattern(email) && PasswordPattern(password)
    ensures r == Some(FieldRequired) <==> FormIncomplete(email, password, name, surname, studClass)
    ensures r == Some(InvalidEmail) <==>
      !FormIncomplete(email, password, name, surname, studClass) && !EmailPattern(email)
    ensures r == Some(PasswordTooShort) <==>
      !FormIncomplete(email, password, name, surname, studClass) && EmailPattern(email) && Utf16Length(password) < 8
    ensures r == Some(WeakPassword) <==>
      && !FormIncomplete(email, password, name, surname, studClass) && EmailPattern(email)
      && Utf16Length(password) >= 8 && !PasswordPattern(password)
  {
    EmailCheckIsPattern(email);
    PasswordRuleIsPattern(password);
    if FormIncomplete(email, password, name, surname, studClass) then Some(FieldRequired)
    else if !IsValidEmail(email) then Some(InvalidEmail)
    else if Utf16Length(password) < 8 then Some(PasswordTooShort)
    else if !IsStrongPassword(password) then Some(WeakPassword)
    else None
  }

  lemma ExampleEmailValid()
    ensures IsValidEmail("ab@cd.ef")
  {
    var email := "ab@cd.ef";
    assert email[2] == '@' && email[..2] == "ab";
    assert FirstIndex(email, '@') == 2;
    assert email[3..][1..4][1] == '.';
  }

  lemma AstralPasswordStrong()
    ensures IsStrongPassword("Aa1!\U{1F600}\U{1F600}")
  {
    var p := "Aa1!\U{1F600}\U{1F600}";
    assert p[4..] == "\U{1F600}\U{1F600}";
    assert Utf16Length(p[4..]) == 4;
    assert Utf16Length(p) == 8;
    assert IsLower(p[1]) && IsUpper(p[0]) && IsDigit(p[2]) && IsSymbol(p[3]);
  }

  /** A password of six characters, two of them above U+FFFF, is eight code
      units long and passes the form. */
  lemma AstralPasswordAccepted()
    ensures CheckForm("ab@cd.ef", "Aa1!\U{1F600}\U{1F600}", "n", "s", None) == None
  {
    ExampleEmailValid();
    AstralPasswordStrong();
    EmailCheckIsPattern("ab@cd.ef");
    PasswordRuleIsPattern("Aa1!\U{1F600}\U{1F600}");
  }

  /** The form accepts this password, yet it is six characters long to
      SQLite. */
  lemma AstralPasswordShortForSqlite()
    ensures SqliteLength("Aa1!\U{1F600}\U{1F600}") == 6
  {
    var p := "Aa1!\U{1F600}\U{1F600}";
    assert '\0' !in p;
  }

  // ------------------------------------------------------- profile edits

  datatype Role = Prof | Stud

  /** The columns a user of `role` may change, keyed by the field name the
      client sends; `None` means "Field not valid". */
  function EditableColumn(role: Role, field: string): (c: Option<string>)
    ensures c.Some? ==> c.value == field
    ensures c.Some? <==> field in {"name", "surname", "password"} || (role == Stud && field == "class")
  {
    if field == "name" || field == "surname" || field == "password" then Some(field)
    else if role == Stud && field == "class" then Some(field)
    else None
  }

  datatype EditError =
    | RoleNotAllowed | MissingFields | UserNotFound | NewPasswordTooShort | NewPasswordWeak | WrongPassword | FieldNotValid
    // the write breaks `CHECK (length(password) >= 8)`; answered "Internal Error!"
    | CheckViolated

  /** The answer of `POST /api/change_user_info`: the column to overwrite
      with the given value, or the error response. */
  datatype EditOutcome = Update(column: string, value: string) | Refused(error: EditError)

  /** The profile update request is complete: a known role, no empty
      field, and a row for the caller. */
  predicate EditComplete(role: Option<Role>, field: string, value: string, password: string, userExists: bool)
  {
    role.Some? && field != "" && value != "" && password != "" && userExists
  }

  /** The request passes every check before the password test: it is
      complete, and a new password meets the pattern. */
  ghost predicate EditWellFormed(role: Option<Role>, field: string, value: string, password: string, userExists: bool)
  {
    EditComplete(role, field, value, password, userExists) && (field == "password" ==> PasswordPattern(value))
  }

  /** The checks of the profile update in the handler's order. `role` is
      `None` for a session role other than `stud` or `prof`; `userExists`
      says whether the caller has a row; `passwordAccepted` is what the
      password test sees as its condition. Each error is given exactly when
      its own check fails and every earlier one passes. */
  function EditDecision(role: Option<Role>, field: string, value: string, password: string,
                        userExists: bool, passwordAccepted: bool): (r: EditOutcome)
    ensures r == Refused(RoleNotAllowed) <==> role.None?
    ensures r == Refused(MissingFields) <==> role.Some? && (field == "" || value == "" || password == "")
    ensures r == Refused(UserNotFound) <==>
      role.Some? && field != "" && value != "" && password != "" && !userExists
    ensures r == Refused(NewPasswordTooShort) <==>
      EditComplete(role, field, value, password, userExists) && field == "password" && Utf16Length(value) < 8
    ensures r == Refused(NewPasswordWeak) <==>
      && EditComplete(role, field, value, password, userExists) && field == "password"
      && Utf16Length(value) >= 8 && !PasswordPattern(value)
    ensures r == Refused(WrongPassword) <==>
      EditWellFormed(role, field, value, password, userExists) && !passwordAccepted
    ensures r == Refused(FieldNotValid) <==>
      EditWellFormed(role, field, value, password, userExists) && passwordAccepted &&
      EditableColumn(role.value, field).None?
    ensures r == Refused(CheckViolated) <==>
      EditWellFormed(role, field, value, password, userExists) && passwordAccepted &&
      EditableColumn(role.value, field).Some? && field == "password" && SqliteLength(value) < 8
    ensures r.Update? <==>
      EditWellFormed(role, field, value, password, userExists) && passwordAccepted &&
      EditableColumn(role.value, field).Some? && !(field == "password" && SqliteLength(value) < 8)
    ensures r.Update? ==> r.column == field && r.value == value
  {
    PasswordRuleIsPattern(value);
    if role.None? then Refused(RoleNotAllowed)
    else if field == "" || value == "" || password == "" then Refused(MissingFields)
    else if !userExists then Refused(UserNotFound)
    else if field == "password" && Utf16Length(value) < 8 then Refused(NewPasswordTooShort)
    else if field == "password" && !IsStrongPassword(value) then Refused(NewPasswordWeak)
    else if !passwordAccepted then Refused(WrongPassword)
    else
      match EditableColumn(role.value, field)
      case None => Refused(FieldNotValid)
      case Some(column) =>
        if field == "password" && SqliteLength(value) < 8 then Refused(CheckViolated) else Update(column, value)
  }

  /** A new password with a NUL passes both of the handler's checks, but
      SQLite counts no character before the NUL, so the write breaks the
      CHECK and the handler answers "Internal Error!". */
  lemma NulPasswordRefused()
    ensures EditDecision(Some(Stud), "password", "\0Aa1!bcd", "pw", true, true) == Refused(CheckViolated)
  {
    NulPasswordStrong();
    PasswordRuleIsPattern("\0Aa1!bcd");
    assert SqliteLength("\0Aa1!bcd") == 0;
  }

  /** The NUL-led password is 8 units long and has all four classes. */
  lemma NulPasswordStrong()
    ensures IsStrongPassword("\0Aa1!bcd")
  {
    var v := "\0Aa1!bcd";
    assert Utf16Length(v) == 8;
    assert IsLower(v[2]) && IsUpper(v[1]) && IsDigit(v[3]) && IsSymbol(v[4]);
  }

  /** The handler as written: the password comparison is started but not
      awaited, so the test sees a pending promise, which is always truthy;
      `passwordMatches`, the comparison's eventual result, plays no part. */
  function ChangeUserInfoAsWritten(role: Option<Role>, field: string, value: string, password: string,
                                   userExists: bool, passwordMatches: bool): (r: EditOutcome)
    ensures r != Refused(WrongPassword)
  {
    EditDecision(role, field, value, password, userExists, true)
  }

  /** A wrong current password is accepted: the edit goes through. */
  lemma WrongPasswordAccepted()
    ensures ChangeUserInfoAsWritten(Some(Stud), "name", "Mallory", "not-my-password", true, false)
            == Update("name", "Mallory")
  {
  }

  /** The handler with the comparison awaited: an edit is made only when the
      current password matches, and a mismatch that passes the earlier
      checks is answered "Wrong Password". */
  function ChangeUserInfo(role: Option<Role>, field: string, value: string, password: string,
                          userExists: bool, passwordMatches: bool): (r: EditOutcome)
    ensures r.Update? ==> passwordMatches
    ensures r == Refused(WrongPassword) <==>
      EditWellFormed(role, field, value, password, userExists) && !passwordMatches
    ensures passwordMatches ==> r == ChangeUserInfoAsWritten(role, field, value, password, userExists, passwordMatches)
  {
    PasswordRuleIsPattern(value);
    EditDecision(role, field, value, password, userExists, passwordMatches)
  }
}
