/** The sign-up form's submit handler: two ordered guards on the password,
    then the account creation, whose failure is mapped to one of two
    messages. */
module Signup {
  import opened Records

  /** What the handler does, in order: set the error line, call `signup`,
      navigate home. */
  datatype Effect = ShowError(message: string) | CallSignup(email: string, password: string) | GoHome

  /** How `signup(email, password)` settled: created, or rejected with the
      error's `code` (`None` when the error carries none). */
  datatype SignupReply = Created | Rejected(code: Option<string>)

  const MismatchMessage: string := "Passwords do not match"
  const LengthMessage: string := "Password must be at least 6 characters"
  const TakenMessage: string := "This email is already registered."
  const GenericMessage: string := "Failed to create an account."
  const EmailInUse: string := "auth/email-already-in-use"

  /** The shortest password accepted. */
  const MinPasswordLength: nat := 6

  /** `password.length`: UTF-16 code units, so a character outside the Basic
      Multilingual Plane counts twice. */
  function Utf16Length(s: string): (n: nat)
    ensures |s| <= n <= 2 * |s|
  {
    if s == [] then 0 else (if s[0] as int > 0xFFFF then 2 else 1) + Utf16Length(s[1..])
  }

  /** The message for a rejected sign-up: the specific one only for an email
      already in use. */
  function FailureMessage(code: Option<string>): (message: string)
    ensures message == TakenMessage <==> code == Some(EmailInUse)
    ensures message != TakenMessage ==> message == GenericMessage
  {
    if code == Some(EmailInUse) then TakenMessage else GenericMessage
  }

  /** `handleSubmit`: the mismatch guard first, the length guard second,
      each ending the handler with its message; otherwise the error line is
      cleared, `signup` is called, and the outcome decides between going home
      and showing the mapped message. */
  function HandleSubmit(email: string, password: string, confirmPassword: string, reply: SignupReply): (effects: seq<Effect>)
    ensures password != confirmPassword ==> effects == [ShowError(MismatchMessage)]
    ensures password == confirmPassword && Utf16Length(password) < MinPasswordLength ==> effects == [ShowError(LengthMessage)]
    ensures CallSignup(email, password) in effects <==> password == confirmPassword && Utf16Length(password) >= MinPasswordLength
    ensures (forall e :: e in effects ==> !e.CallSignup?) ==> |effects| == 1 && effects[0].ShowError? && effects[0].message != ""
    ensures CallSignup(email, password) in effects ==> |effects| == 3 && effects[0] == ShowError("") && effects[1] == CallSignup(email, password)
    ensures GoHome in effects <==> CallSignup(email, password) in effects && reply.Created?
    ensures CallSignup(email, password) in effects && reply.Rejected? ==> effects[2] == ShowError(FailureMessage(reply.code))
  {
    if password != confirmPassword then [ShowError(MismatchMessage)]
    else if Utf16Length(password) < MinPasswordLength then [ShowError(LengthMessage)]
    else
      [ShowError(""), CallSignup(email, password)]
      + match reply
        case Created => [GoHome]
        case Rejected(code) => [ShowError(FailureMessage(code))]
  }

  /** The length guard counts code units, not characters: a password made of
      characters outside the Basic Multilingual Plane counts twice its
      length, so three such characters already pass the guard. */
  lemma {:induction false} SupplementaryCharactersCountTwice(email: string, password: string, reply: SignupReply)
    requires forall i :: 0 <= i < |password| ==> password[i] as int > 0xFFFF
    ensures Utf16Length(password) == 2 * |password|
    ensures |password| >= 3 ==> CallSignup(email, password) in HandleSubmit(email, password, password, reply)
    decreases |password|
  {
    if password != [] {
      SupplementaryCharactersCountTwice(email, password[1..], reply);
    }
  }
}
