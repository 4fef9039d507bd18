/** The sign-up form shared by both front ends: the username pattern, the
    two field errors, the submit gate, and the message shown when
    registration fails. */
module Signup {

  const UsernameMaxLength: nat := 25
  const UsernameMinLength: nat := 3

  predicate IsAsciiAlnum(c: char)
  {
    ('A' <= c <= 'Z') || ('a' <= c <= 'z') || ('0' <= c <= '9')
  }

  /** `^[A-Za-z0-9]{3,25}$`: three to twenty-five ASCII letters or digits and
      nothing else. */
  predicate UsernamePattern(u: string)
  {
    UsernameMinLength <= |u| <= UsernameMaxLength && forall i :: 0 <= i < |u| ==> IsAsciiAlnum(u[i])
  }

  /** The matcher: one scan that stops at the first character outside the
      class or once the input is longer than the bound allows. */
  method MatchUsername(u: string) returns (ok: bool)
    ensures ok <==> UsernamePattern(u)
  {
    if |u| < UsernameMinLength as int {
      return false;
    }
    var i := 0;
    while i < |u|
      invariant 0 <= i <= |u|
      invariant i <= UsernameMaxLength as int
      invariant forall j :: 0 <= j < i ==> IsAsciiAlnum(u[j])
    {
      if i == UsernameMaxLength as int || !IsAsciiAlnum(u[i]) {
        return false;
      }
      i := i + 1;
    }
    return true;
  }

  /** The username field shows an error for non-empty text that does not
      match. */
  predicate UsernameError(u: string)
  {
    u != "" && !UsernamePattern(u)
  }

  /** The confirmation field shows an error for non-empty text that differs
      from the password. */
  predicate ConfirmError(password: string, confirm: string)
  {
    confirm != "" && password != confirm
  }

  datatype SignupForm = SignupForm(
    username: string,
    email: string,
    password: string,
    confirm: string,
    loading: bool,
    error: string)

  function EmptySignup(): SignupForm
  {
    SignupForm("", "", "", "", false, "")
  }

  /** The submit button is disabled while a request runs, while username,
      email or password is empty, or while the confirmation differs. The
      username pattern takes no part. */
  predicate SubmitDisabled(f: SignupForm)
  {
    f.loading || f.username == "" || f.email == "" || f.password == "" || f.password != f.confirm
  }

  /** Typing in the username field: the input accepts at most twenty-five
      characters. */
  function EnterUsername(f: SignupForm, typed: string): (r: SignupForm)
    ensures |r.username| <= UsernameMaxLength
    ensures r.username == typed[..if |typed| <= UsernameMaxLength then |typed| else UsernameMaxLength]
    ensures r == f.(username := r.username)
  {
    f.(username := if |typed| <= UsernameMaxLength then typed else typed[..UsernameMaxLength])
  }

  /** A username that passed through the field can fail the pattern only by
      being too short or by holding a character outside the class. */
  lemma EnteredUsernameErrors(f: SignupForm, typed: string)
    ensures var u := EnterUsername(f, typed).username;
      UsernameError(u) <==> u != "" && (|u| < UsernameMinLength || exists i :: 0 <= i < |u| && !IsAsciiAlnum(u[i]))
  {
  }

  /** An invalid username can still be submitted: the gate ignores the
      pattern. */
  lemma InvalidUsernameSubmittable(f: SignupForm)
    requires !f.loading && f.email != "" && f.password != "" && f.confirm == f.password
    requires UsernameError(f.username)
    ensures !SubmitDisabled(f)
  {
  }

  /** A two-character username shows the error and can be submitted. */
  lemma ShortUsernameExample()
    ensures var f := SignupForm("ab", "e", "p", "p", false, "");
      UsernameError(f.username) && !SubmitDisabled(f)
  {
    assert |"ab"| == 2;
  }

  /** A shown confirmation error always closes the gate; the converse fails
      for an empty confirmation. */
  lemma ConfirmErrorDisablesSubmit(f: SignupForm)
    ensures ConfirmError(f.password, f.confirm) ==> SubmitDisabled(f)
    ensures f.password != "" && f.confirm == "" ==> SubmitDisabled(f) && !ConfirmError(f.password, f.confirm)
  {
  }

  /** What the registration call throws. */
  datatype RegisterError = UsernameTaken | OtherFailure

  /** Outcome of the registration call. */
  datatype RegisterOutcome = Registered | Failed(err: RegisterError)

  const UsernameExists: string := "Username already exists"
  const CouldNotCreate: string := "Could not create user"

  /** The message for a failed registration: a taken username has its own,
      every other failure the generic one. */
  function ErrorMessage(e: RegisterError): (m: string)
    ensures m == UsernameExists <==> e == UsernameTaken
    ensures m == UsernameExists || m == CouldNotCreate
  {
    if e == UsernameTaken then UsernameExists else CouldNotCreate
  }

  /** Submitting: the error is cleared and loading starts; success leaves
      the page (`navigated`); failure stops loading and shows the message. */
  function Submit(f: SignupForm, o: RegisterOutcome): (r: (SignupForm, bool))
    ensures r.1 <==> o == Registered
    ensures r.1 ==> r.0.loading && r.0.error == ""
    ensures !r.1 ==> !r.0.loading && r.0.error == ErrorMessage(o.err)
    ensures r.0.username == f.username && r.0.email == f.email && r.0.password == f.password && r.0.confirm == f.confirm
  {
    var started := f.(error := "", loading := true);
    if o == Registered then (started, true)
    else (started.(loading := false, error := ErrorMessage(o.err)), false)
  }

  /** After a failed attempt the same form can be submitted again. */
  lemma FailedSubmitCanRetry(f: SignupForm, o: RegisterOutcome)
    requires !SubmitDisabled(f) && o != Registered
    ensures !SubmitDisabled(Submit(f, o).0)
  {
  }
}
