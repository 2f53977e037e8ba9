/** The `Signup` page of src/pages/Signup.tsx: a TR number that must be five
    digits, a password typed twice, and a submission that posts them to the
    sign-up endpoint and reports the server's answer.

    The server's answer is a parameter of the submission, so every possible
    answer is covered. */
module SignupPage {
  import opened Wrappers
  import Text

  /** The pattern `^\d{5}$`, consumed one digit at a time: `n` more digits
      and then the end of the text. */
  predicate DigitsThenEnd(s: string, n: nat)
    decreases n
  {
    if n == 0 then s == [] else s != [] && Text.IsDigit(s[0]) && DigitsThenEnd(s[1..], n - 1)
  }

  /** `isValidTrNumber`. */
  predicate IsValidTrNumber(tr: string) {
    DigitsThenEnd(tr, 5)
  }

  /** The pattern accepts exactly the texts of `n` characters, each of them
      0-9. */
  lemma {:induction false} DigitsThenEndIff(s: string, n: nat)
    ensures DigitsThenEnd(s, n) <==> |s| == n && forall i :: 0 <= i < |s| ==> Text.IsDigit(s[i])
    decreases n
  {
    if n > 0 && s != [] {
      DigitsThenEndIff(s[1..], n - 1);
      if |s| == n && forall i :: 0 <= i < |s| ==> Text.IsDigit(s[i]) {
        assert forall i :: 0 <= i < |s[1..]| ==> Text.IsDigit(s[1..][i]) by {
          forall i | 0 <= i < |s[1..]| ensures Text.IsDigit(s[1..][i]) {
            assert s[1..][i] == s[i + 1];
          }
        }
      }
      if DigitsThenEnd(s, n) {
        forall i | 0 <= i < |s| ensures Text.IsDigit(s[i]) {
          if i > 0 {
            assert s[i] == s[1..][i - 1];
          }
        }
      }
    }
  }

  /** A TR number is valid exactly when it is five characters, all digits. */
  lemma ValidTrNumberIff(tr: string)
    ensures IsValidTrNumber(tr) <==> |tr| == 5 && forall i :: 0 <= i < |tr| ==> Text.IsDigit(tr[i])
  {
    DigitsThenEndIff(tr, 5);
  }

  /** Every number below 100000 written with five digits is accepted. */
  lemma PaddedNumbersAccepted(d: seq<nat>)
    requires |d| == 5 && forall i :: 0 <= i < 5 ==> d[i] < 10
    ensures IsValidTrNumber(seq(5, i requires 0 <= i < 5 => Text.DigitChar(d[i])))
  {
    ValidTrNumberIff(seq(5, i requires 0 <= i < 5 => Text.DigitChar(d[i])));
  }

  // ------------------------------------------------------------ the server

  /** The JSON body sent: `{ tr_number, password, confirm_password }`. */
  datatype Request = Request(trNumber: string, password: string, confirmPassword: string)

  /** The error fields of a rejected sign-up; each is a list of messages, or
      absent. */
  datatype ErrorBody = ErrorBody(trNumber: Option<seq<string>>, nonFieldErrors: Option<seq<string>>)

  /** What the request comes back with: success, a rejection with a JSON
      body, a rejection whose body is not JSON (the parse error's message),
      or a failed request (its message). */
  datatype Response = Accepted | Rejected(body: ErrorBody) | Unreadable(message: string) | Unreachable(message: string)

  const DefaultError := "Signup failed. Please try again."

  /** `list?.[0]`, kept only when it is a non-empty string. */
  function FirstMessage(list: Option<seq<string>>): (r: Option<string>)
    ensures r.Some? <==> list.Some? && |list.value| > 0 && list.value[0] != ""
    ensures r.Some? ==> r.value == list.value[0]
  {
    match list
    case Some(l) => if |l| > 0 && l[0] != "" then Some(l[0]) else None
    case None => None
  }

  /** `tr_number?.[0] || non_field_errors?.[0] || 'Signup failed…'`. */
  function ErrorMessage(body: ErrorBody): (msg: string)
    ensures msg != ""
    ensures FirstMessage(body.trNumber).Some? ==> msg == FirstMessage(body.trNumber).value
    ensures FirstMessage(body.trNumber).None? && FirstMessage(body.nonFieldErrors).Some?
            ==> msg == FirstMessage(body.nonFieldErrors).value
    ensures FirstMessage(body.trNumber).None? && FirstMessage(body.nonFieldErrors).None?
            ==> msg == DefaultError
  {
    match FirstMessage(body.trNumber)
    case Some(m) => m
    case None =>
      match FirstMessage(body.nonFieldErrors)
      case Some(m) => m
      case None => DefaultError
  }

  /** A message about the TR number wins over a general one. */
  lemma TrNumberErrorFirst(trMsg: string, general: seq<string>)
    requires trMsg != ""
    ensures ErrorMessage(ErrorBody(Some([trMsg]), Some(general))) == trMsg
  {
  }

  /** What the user sees: a toast, and for a successful sign-up a move to
      the login page. */
  datatype Toast = Success(text: string) | Error(text: string)

  datatype Outcome = Outcome(toast: Toast, sent: Option<Request>, navigateTo: Option<string>)

  /** The result of `handleSubmit` for the given fields and server answer. */
  function Submit(trNumber: string, password: string, confirmPassword: string, response: Response): (o: Outcome)
    ensures !IsValidTrNumber(trNumber) ==> o == Outcome(Error("TR Number must be exactly 5 digits"), None, None)
    ensures IsValidTrNumber(trNumber) && password != confirmPassword
            ==> o == Outcome(Error("Passwords do not match"), None, None)
    ensures o.sent.Some? <==> IsValidTrNumber(trNumber) && password == confirmPassword
    ensures o.sent.Some? ==> o.sent.value == Request(trNumber, password, confirmPassword)
    ensures o.navigateTo.Some? <==> o.sent.Some? && response.Accepted?
    ensures o.navigateTo.Some? ==> o.navigateTo.value == "/login" && o.toast.Success?
    ensures o.sent.Some? && response.Rejected? ==> o.toast == Error(ErrorMessage(response.body))
    ensures o.sent.Some? && (response.Unreadable? || response.Unreachable?) ==> o.toast == Error(response.message)
    ensures o.sent.Some? && response.Accepted? ==> o.toast == Success("Signup successful! Please log in.")
  {
    if !IsValidTrNumber(trNumber) then Outcome(Error("TR Number must be exactly 5 digits"), None, None)
    else if password != confirmPassword then Outcome(Error("Passwords do not match"), None, None)
    else
      var request := Request(trNumber, password, confirmPassword);
      match response
      case Accepted => Outcome(Success("Signup successful! Please log in."), Some(request), Some("/login"))
      case Rejected(body) => Outcome(Error(ErrorMessage(body)), Some(request), None)
      case Unreadable(message) => Outcome(Error(message), Some(request), None)
      case Unreachable(message) => Outcome(Error(message), Some(request), None)
  }

  /** The TR number is checked before the passwords: a bad TR number with
      mismatched passwords reports only the TR number. */
  lemma TrCheckedFirst(trNumber: string, password: string, confirmPassword: string, response: Response)
    requires !IsValidTrNumber(trNumber) && password != confirmPassword
    ensures Submit(trNumber, password, confirmPassword, response).toast == Error("TR Number must be exactly 5 digits")
  {
  }

  class Signup {
    var trNumber: string
    var password: string
    var confirmPassword: string
    var loading: bool

    constructor ()
      ensures trNumber == "" && password == "" && confirmPassword == "" && !loading
    {
      trNumber := "";
      password := "";
      confirmPassword := "";
      loading := false;
    }

    /** `handleSubmit`. The request goes out with `loading` set, and `loading`
        is clear again on every path. The button is disabled while loading,
        so a submission starts with `loading` clear. */
    method HandleSubmit(response: Response) returns (outcome: Outcome, loadingWhileSent: bool)
      requires !loading
      modifies this
      ensures outcome == Submit(trNumber, password, confirmPassword, response)
      ensures loadingWhileSent <==> outcome.sent.Some?
      ensures !loading
      ensures trNumber == old(trNumber) && password == old(password) && confirmPassword == old(confirmPassword)
    {
      loadingWhileSent := false;
      if IsValidTrNumber(trNumber) && password == confirmPassword {
        loading := true;
        loadingWhileSent := loading;
      }
      outcome := Submit(trNumber, password, confirmPassword, response);
      loading := false;
    }
  }
}
