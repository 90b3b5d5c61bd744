/** The log-in page: the guard in front of the sign-in request and the
    error message's life cycle. */
module Login {
  import opened Options
  import opened JsStrings
  import Signup

  /** The page state; an empty `error` shows no message. */
  datatype LoginState = LoginState(username: string, password: string, error: string, loading: bool)

  const FillAllFields := "Please fill in all fields"

  /** The page as first shown. */
  const Initial := LoginState("", "", "", false)

  /** The outcome of `handleLogin` up to the request: the new state and
      whether the request goes out. */
  datatype LoginStep = LoginStep(state: LoginState, sent: bool)

  /** `handleLogin`'s guard: an empty username or password (not trimmed)
      stops with a message; otherwise the message is cleared and loading
      starts before the request. The credentials are never changed. */
  function HandleLogin(st: LoginState): (r: LoginStep)
    ensures r.sent <==> st.username != [] && st.password != []
    ensures !r.sent ==> r.state == st.(error := FillAllFields)
    ensures r.sent ==> r.state == st.(error := "", loading := true)
  {
    if st.username == [] || st.password == [] then LoginStep(st.(error := FillAllFields), false)
    else LoginStep(st.(error := "", loading := true), true)
  }

  /** Typing in the username field replaces it and clears the message. */
  function EditUsername(st: LoginState, value: string): (r: LoginState)
    ensures r.error == [] && r.username == value
    ensures r.password == st.password && r.loading == st.loading
  {
    st.(username := value, error := "")
  }

  /** Typing in the password field replaces it and clears the message. */
  function EditPassword(st: LoginState, value: string): (r: LoginState)
    ensures r.error == [] && r.password == value
    ensures r.username == st.username && r.loading == st.loading
  {
    st.(password := value, error := "")
  }

  /** The page opens with both fields empty, so an immediate attempt is
      blocked with the message. */
  lemma InitialBlocked()
    ensures HandleLogin(Initial) == LoginStep(Initial.(error := FillAllFields), false)
  {
  }

  /** A blocked attempt leaves a message that the next keystroke removes, and
      the retry goes out once both fields are filled. */
  lemma BlockedThenFixed(st: LoginState, password: string)
    requires st.username != [] && st.password == [] && password != []
    ensures var blocked := HandleLogin(st);
            && !blocked.sent && blocked.state.error == FillAllFields
            && EditPassword(blocked.state, password).error == []
            && HandleLogin(EditPassword(blocked.state, password)).sent
  {
  }

  /** The guard does not trim: credentials of blanks pass it, while the
      sign-up form rejects the same username. */
  lemma BlankCredentialsPass(st: LoginState, form: Signup.SignupForm)
    requires st.username == " " && st.password == " " && form.username == st.username
    ensures HandleLogin(st).sent
    ensures Signup.ValidateForm(form).0.username == Some(Signup.UsernameRequired)
  {
    assert IsWhitespace(form.username[0]);
  }
}
