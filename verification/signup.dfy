/** The sign-up form's `validateForm`: four independent field checks that
    together decide whether the form may be submitted. */
module Signup {
  import opened Options
  import opened JsStrings

  datatype SignupForm = SignupForm(username: string, email: string, password: string, confirmPassword: string)

  // ---------------------------------------------------------------------------
  // The email pattern

  /** Every character of `s` in `[lo, hi)` is matched by `\S`. */
  predicate Solid(s: string, lo: int, hi: int) {
    forall k :: lo <= k < hi && 0 <= k < |s| ==> !IsWhitespace(s[k])
  }

  /** `s[p..e]` matches `\S+@\S+\.\S+` with its `@` at `i` and its `.` at
      `d`: each `\S+` is a non-empty run of non-white-space characters. */
  ghost predicate SpanMatches(s: string, p: int, i: int, d: int, e: int) {
    && 0 <= p < i && i + 1 < d && d + 1 < e <= |s|
    && s[i] == '@' && s[d] == '.'
    && Solid(s, p, i) && Solid(s, i + 1, d) && Solid(s, d + 1, e)
  }

  /** `/\S+@\S+\.\S+/.test(s)`: the pattern is not anchored, so it is enough
      that some part of `s` matches. */
  ghost predicate EmailPattern(s: string) {
    exists p, i, d, e :: SpanMatches(s, p, i, d, e)
  }

  /** The shortest match with its `@` at `i` and its `.` at `d`: one character
      before the `@`, at least one between, one after the `.`, and no white
      space from the first to the last. */
  predicate MatchAt(s: string, i: int, d: int) {
    && 1 <= i && i + 2 <= d && d + 1 < |s|
    && s[i] == '@' && s[d] == '.'
    && Solid(s, i - 1, d + 2)
  }

  lemma MatchAtIsMatch(s: string, i: int, d: int)
    requires MatchAt(s, i, d)
    ensures SpanMatches(s, i - 1, i, d, d + 2)
  {
  }

  lemma MatchIsMatchAt(s: string, p: int, i: int, d: int, e: int)
    requires SpanMatches(s, p, i, d, e)
    ensures MatchAt(s, i, d)
  {
    assert !IsWhitespace('@') && !IsWhitespace('.');
  }

  /** A match exists exactly when a shortest one does. */
  lemma PatternIffMatchAt(s: string)
    ensures EmailPattern(s) <==> exists i, d :: MatchAt(s, i, d)
  {
    if EmailPattern(s) {
      var p, i, d, e :| SpanMatches(s, p, i, d, e);
      MatchIsMatchAt(s, p, i, d, e);
    }
    if exists i, d :: MatchAt(s, i, d) {
      var i, d :| MatchAt(s, i, d);
      MatchAtIsMatch(s, i, d);
    }
  }

  /** The state of the left-to-right search after `k` characters: the current
      run of non-white-space characters starts at `runStart`, `firstAt` is
      its first `@` that has a character of the run before it (or -1), and no
      shortest match ends before `k`. */
  ghost predicate ScanState(s: string, k: nat, runStart: nat, firstAt: int) {
    && runStart <= k <= |s|
    && (runStart == 0 || IsWhitespace(s[runStart - 1]))
    && Solid(s, runStart, k)
    && (firstAt == -1 ==> forall j :: runStart < j < k ==> s[j] != '@')
    && (firstAt != -1 ==> && runStart < firstAt < k && s[firstAt] == '@'
                          && forall j :: runStart < j < firstAt ==> s[j] != '@')
    && forall i, d :: d < k ==> !MatchAt(s, i, d)
  }

  /** When the search does not stop at a non-white-space `s[k]`, no shortest
      match ends at `k`: a match would lie inside the current run, after its
      first `@`, so the search would have found it. */
  lemma NoMatchEndingAt(s: string, k: nat, runStart: nat, firstAt: int)
    requires ScanState(s, k, runStart, firstAt)
    requires k < |s| && !IsWhitespace(s[k])
    requires !(s[k] == '.' && firstAt != -1 && firstAt + 2 <= k && k + 1 < |s| && !IsWhitespace(s[k + 1]))
    ensures forall i :: !MatchAt(s, i, k)
  {
    forall i ensures !MatchAt(s, i, k) {
      if 1 <= i < k && s[i] == '@' && Solid(s, i - 1, k) {
        assert runStart <= i - 1;
        assert firstAt != -1 && firstAt <= i;
      }
    }
  }

  /** The search from position `k` on. */
  function Scan(s: string, k: nat, runStart: nat, firstAt: int): (found: bool)
    requires ScanState(s, k, runStart, firstAt)
    ensures found <==> exists i, d :: MatchAt(s, i, d)
    decreases |s| - k
  {
    if k == |s| then false
    else if IsWhitespace(s[k]) then
      assert forall i :: !MatchAt(s, i, k) by {
        assert !IsWhitespace('.');
      }
      Scan(s, k + 1, k + 1, -1)
    else if s[k] == '.' && firstAt != -1 && firstAt + 2 <= k && k + 1 < |s| && !IsWhitespace(s[k + 1]) then
      assert MatchAt(s, firstAt, k);
      true
    else
      NoMatchEndingAt(s, k, runStart, firstAt);
      Scan(s, k + 1, runStart, if s[k] == '@' && firstAt == -1 && runStart < k then k else firstAt)
  }

  /** The email test as one left-to-right pass. */
  function EmailMatches(s: string): (found: bool)
    ensures found <==> EmailPattern(s)
  {
    PatternIffMatchAt(s);
    Scan(s, 0, 0, -1)
  }

  /** An address needs something between the `@` and the `.`, but the
      unanchored test lets white space through elsewhere. */
  lemma EmailExamples()
    ensures EmailPattern("a@b.c")
    ensures !EmailPattern("a@.c")
    ensures !EmailPattern("a@b.")
    ensures EmailPattern("my name@x.io")
  {
    assert MatchAt("a@b.c", 1, 3);
    MatchAtIsMatch("a@b.c", 1, 3);
    PatternIffMatchAt("a@.c");
    PatternIffMatchAt("a@b.");
    assert MatchAt("my name@x.io", 7, 9);
    MatchAtIsMatch("my name@x.io", 7, 9);
  }

  // ---------------------------------------------------------------------------
  // validateForm

  const UsernameRequired := "Username is required"
  const EmailRequired := "Email is required"
  const EmailInvalid := "Invalid email format"
  const PasswordRequired := "Password is required"
  const PasswordTooShort := "Password must be at least 6 characters"
  const PasswordsDiffer := "Passwords do not match"

  /** The error map: one optional message per field. */
  datatype SignupErrors = SignupErrors(
    username: Option<string>,
    email: Option<string>,
    password: Option<string>,
    confirmPassword: Option<string>)

  const NoErrors := SignupErrors(None, None, None, None)

  /** The username check: it is trimmed first. */
  function UsernameError(username: string): (err: Option<string>)
    ensures err.Some? <==> AllWhitespace(username)
    ensures err.Some? ==> err.value == UsernameRequired
  {
    if Trim(username) == [] then Some(UsernameRequired) else None
  }

  /** The email check: trimmed for the emptiness test, untrimmed for the
      pattern; at most one of its two messages is given. */
  function EmailError(email: string): (err: Option<string>)
    ensures err == Some(EmailRequired) <==> AllWhitespace(email)
    ensures err == Some(EmailInvalid) <==> !AllWhitespace(email) && !EmailPattern(email)
    ensures err.None? <==> !AllWhitespace(email) && EmailPattern(email)
  {
    if Trim(email) == [] then Some(EmailRequired)
    else if !EmailMatches(email) then Some(EmailInvalid)
    else None
  }

  /** The password check, on the password as typed. */
  function PasswordError(password: string): (err: Option<string>)
    ensures err == Some(PasswordRequired) <==> password == []
    ensures err == Some(PasswordTooShort) <==> 0 < |password| < 6
    ensures err.None? <==> |password| >= 6
  {
    if password == [] then Some(PasswordRequired)
    else if |password| < 6 then Some(PasswordTooShort)
    else None
  }

  /** The confirmation check, whatever the password check said. */
  function ConfirmError(password: string, confirmPassword: string): (err: Option<string>)
    ensures err.Some? <==> password != confirmPassword
    ensures err.Some? ==> err.value == PasswordsDiffer
  {
    if password != confirmPassword then Some(PasswordsDiffer) else None
  }

  /** `validateForm`: every check runs, each fills its own field of the
      error map, and the form is valid exactly when the map is empty, that
      is, when the username and email are not blank, the email matches, the
      password has at least six characters and the confirmation repeats it. */
  function ValidateForm(form: SignupForm): (r: (SignupErrors, bool))
    ensures r.0.username == UsernameError(form.username)
    ensures r.0.email == EmailError(form.email)
    ensures r.0.password == PasswordError(form.password)
    ensures r.0.confirmPassword == ConfirmError(form.password, form.confirmPassword)
    ensures r.1 <==> r.0 == NoErrors
    ensures r.1 <==> && !AllWhitespace(form.username)
                     && !AllWhitespace(form.email) && EmailPattern(form.email)
                     && |form.password| >= 6
                     && form.password == form.confirmPassword
  {
    var errors := SignupErrors(
      UsernameError(form.username),
      EmailError(form.email),
      PasswordError(form.password),
      ConfirmError(form.password, form.confirmPassword));
    (errors, errors == NoErrors)
  }

  /** The password is not trimmed: six spaces are accepted. */
  lemma SixSpacesPass(form: SignupForm)
    requires form.password == "      " && form.confirmPassword == form.password
    ensures ValidateForm(form).0.password.None?
    ensures ValidateForm(form).0.confirmPassword.None?
  {
  }

  /** A blank username is rejected however long it is. */
  lemma BlankUsernameRejected(form: SignupForm)
    requires AllWhitespace(form.username)
    ensures ValidateForm(form).0.username == Some(UsernameRequired)
    ensures !ValidateForm(form).1
  {
  }

  /** A mismatched confirmation is reported even when the password itself
      is missing. */
  lemma MismatchReportedWithMissingPassword(form: SignupForm)
    requires form.password == [] && form.confirmPassword != []
    ensures ValidateForm(form).0.password == Some(PasswordRequired)
    ensures ValidateForm(form).0.confirmPassword == Some(PasswordsDiffer)
  {
  }
}
