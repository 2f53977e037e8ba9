/** The modal of src/components/AddUserModal.tsx: a TR number, a password and
    a role, checked for blanks (TR number first) before the new user is
    handed to the `onAdd` callback and the form is reset. */
module AddUserModal {
  import Text
  import AdminPage

  /** What `onAdd` receives. */
  datatype NewUser = NewUser(trNumber: string, password: string, role: AdminPage.Role)

  /** The outcome of one submission: the error toast shown, or the user
      passed to `onAdd`. */
  datatype Outcome = TrRequired | PasswordRequired | Added(user: NewUser)

  /** The text is empty or only white space, so `!text.trim()` holds. */
  predicate Blank(text: string) {
    forall i :: 0 <= i < |text| ==> Text.IsWhiteSpace(text[i])
  }

  /** The checks of `handleSubmit`, in their order. */
  function Decide(trNumber: string, password: string, role: AdminPage.Role): (o: Outcome)
    ensures o == TrRequired <==> Blank(trNumber)
    ensures o == PasswordRequired <==> !Blank(trNumber) && Blank(password)
    ensures o.Added? ==> o.user == NewUser(trNumber, password, role)
  {
    Text.TrimEmptyIff(trNumber);
    Text.TrimEmptyIff(password);
    if Text.Trim(trNumber) == [] then TrRequired
    else if Text.Trim(password) == [] then PasswordRequired
    else Added(NewUser(trNumber, password, role))
  }

  /** When both fields are blank only the TR number error is shown. */
  lemma TrCheckedFirst(trNumber: string, password: string, role: AdminPage.Role)
    requires Blank(trNumber) && Blank(password)
    ensures Decide(trNumber, password, role) == TrRequired
  {
  }

  /** The user is handed on with surrounding white space kept: a TR number
      with leading spaces is accepted as typed. */
  lemma UntrimmedTrAccepted()
    ensures Decide(" 12345", "pw", AdminPage.Student) == Added(NewUser(" 12345", "pw", AdminPage.Student))
  {
    assert !Text.IsWhiteSpace('1');
    assert !Blank(" 12345") by { assert " 12345"[1] == '1'; }
    assert !Blank("pw") by { assert "pw"[0] == 'p'; }
  }

  class Modal {
    var trNumber: string
    var password: string
    var role: AdminPage.Role

    constructor ()
      ensures trNumber == "" && password == "" && role == AdminPage.Student
    {
      trNumber := "";
      password := "";
      role := AdminPage.Student;
    }

    /** `handleSubmit`: a rejected submission leaves the fields as they were;
        an accepted one resets them to '', '' and student. */
    method HandleSubmit() returns (outcome: Outcome)
      modifies this
      ensures outcome == Decide(old(trNumber), old(password), old(role))
      ensures outcome.Added? ==> trNumber == "" && password == "" && role == AdminPage.Student
      ensures !outcome.Added? ==> trNumber == old(trNumber) && password == old(password) && role == old(role)
    {
      outcome := Decide(trNumber, password, role);
      if outcome.Added? {
        trNumber := "";
        password := "";
        role := AdminPage.Student;
      }
    }
  }

  /** The modal's content: nothing while closed, otherwise the form with the
      current field values. */
  datatype View = Hidden | Form(trNumber: string, password: string, role: AdminPage.Role)

  function Render(isOpen: bool, trNumber: string, password: string, role: AdminPage.Role): (v: View)
    ensures v.Hidden? <==> !isOpen
    ensures v.Form? ==> v == Form(trNumber, password, role)
  {
    if !isOpen then Hidden else Form(trNumber, password, role)
  }
}
