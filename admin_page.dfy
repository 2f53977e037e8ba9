/** The `Admin` page of src/pages/Admin.tsx: a list of users keyed by TR
    number, a form that adds a user unless the TR number is taken, and a
    delete button per row that asks for confirmation first. */
module AdminPage {
  import Seqs

  datatype Role = Student | Admin

  datatype User = User(trNumber: string, role: Role)

  /** The users the page starts with. */
  const InitialUsers: seq<User> := [User("TR001", Student), User("TR002", Student), User("ADMIN", Admin)]

  /** `users.some(u => u.trNumber === tr)`. */
  predicate Taken(users: seq<User>, tr: string) {
    exists i :: 0 <= i < |users| && users[i].trNumber == tr
  }

  /** No two users share a TR number. */
  predicate DistinctTrs(users: seq<User>) {
    forall i, j :: 0 <= i < j < |users| ==> users[i].trNumber != users[j].trNumber
  }

  /** The list after a delete of `tr`: every other user, in order. */
  function Without(users: seq<User>, tr: string): (r: seq<User>)
    ensures |r| <= |users|
  {
    Seqs.Filter(users, (u: User) => u.trNumber != tr)
  }

  lemma InitialUsersDistinct()
    ensures DistinctTrs(InitialUsers)
  {
  }

  /** Appending a user whose TR number is not taken keeps the TR numbers
      distinct. */
  lemma AppendKeepsDistinct(users: seq<User>, u: User)
    requires DistinctTrs(users) && !Taken(users, u.trNumber)
    ensures DistinctTrs(users + [u])
  {
    var r := users + [u];
    forall i, j | 0 <= i < j < |r| ensures r[i].trNumber != r[j].trNumber {
      if j == |users| {
        assert r[i] == users[i];
      } else {
        assert r[i] == users[i] && r[j] == users[j];
      }
    }
  }

  /** A delete keeps exactly the users with another TR number. */
  lemma WithoutIff(users: seq<User>, tr: string, u: User)
    ensures u in Without(users, tr) <==> u in users && u.trNumber != tr
  {
    Seqs.FilterIn(users, (x: User) => x.trNumber != tr, u);
  }

  /** The TR number is gone after its delete. */
  lemma WithoutRemovesTr(users: seq<User>, tr: string)
    ensures !Taken(Without(users, tr), tr)
  {
    var r := Without(users, tr);
    forall i | 0 <= i < |r| ensures r[i].trNumber != tr {
      WithoutIff(users, tr, r[i]);
    }
  }

  /** A delete keeps the TR numbers distinct. */
  lemma {:induction false} WithoutKeepsDistinct(users: seq<User>, tr: string)
    requires DistinctTrs(users)
    ensures DistinctTrs(Without(users, tr))
  {
    if users != [] {
      var rest := users[1..];
      assert DistinctTrs(rest) by {
        forall i, j | 0 <= i < j < |rest| ensures rest[i].trNumber != rest[j].trNumber {
          assert rest[i] == users[i + 1] && rest[j] == users[j + 1];
        }
      }
      WithoutKeepsDistinct(rest, tr);
      if users[0].trNumber != tr {
        var tail := Without(rest, tr);
        forall k | 0 <= k < |tail| ensures tail[k].trNumber != users[0].trNumber {
          WithoutIff(rest, tr, tail[k]);
          var m :| 0 <= m < |rest| && rest[m] == tail[k];
          assert users[m + 1] == tail[k];
        }
        var r := [users[0]] + tail;
        forall i, j | 0 <= i < j < |r| ensures r[i].trNumber != r[j].trNumber {
          if i == 0 {
            assert r[j] == tail[j - 1];
          } else {
            assert r[i] == tail[i - 1] && r[j] == tail[j - 1];
          }
        }
      }
    }
  }

  /** Deleting a user that was just added restores the list. */
  lemma DeleteUndoesAdd(users: seq<User>, u: User)
    requires !Taken(users, u.trNumber)
    ensures Without(users + [u], u.trNumber) == users
  {
    var keep := (x: User) => x.trNumber != u.trNumber;
    Seqs.FilterAppend(users, [u], keep);
    Seqs.FilterAll(users, keep);
    assert Seqs.Filter([u], keep) == [];
  }

  class Admin {
    var users: seq<User>
    var newTrNumber: string
    var newRole: Role

    /** The list never holds two users with one TR number. */
    predicate Valid()
      reads this
    {
      DistinctTrs(users)
    }

    constructor ()
      ensures users == InitialUsers && newTrNumber == "" && newRole == Student
      ensures Valid()
    {
      users := InitialUsers;
      newTrNumber := "";
      newRole := Student;
      InitialUsersDistinct();
    }

    /** `handleAddUser`: a taken TR number raises an alert and changes
        nothing; otherwise the user is appended, the TR input is cleared and
        the selected role stays. The browser refuses to submit an empty TR
        input. */
    method HandleAddUser() returns (alerted: bool)
      requires Valid() && newTrNumber != ""
      modifies this
      ensures Valid() && newRole == old(newRole)
      ensures alerted <==> Taken(old(users), old(newTrNumber))
      ensures alerted ==> users == old(users) && newTrNumber == old(newTrNumber)
      ensures !alerted ==> users == old(users) + [User(old(newTrNumber), newRole)] && newTrNumber == ""
    {
      var i := 0;
      alerted := false;
      while i < |users| && !alerted
        invariant 0 <= i <= |users|
        invariant alerted ==> Taken(users, newTrNumber)
        invariant !alerted ==> forall k :: 0 <= k < i ==> users[k].trNumber != newTrNumber
        decreases |users| - i, !alerted
      {
        if users[i].trNumber == newTrNumber {
          alerted := true;
        } else {
          i := i + 1;
        }
      }
      if !alerted {
        AppendKeepsDistinct(users, User(newTrNumber, newRole));
        users := users + [User(newTrNumber, newRole)];
        newTrNumber := "";
      }
    }

    /** `handleDeleteUser(tr)`: once the user confirms, every user with that
        TR number is removed and the others keep their order. */
    method HandleDeleteUser(tr: string, confirmed: bool)
      requires Valid()
      modifies this
      ensures Valid() && newTrNumber == old(newTrNumber) && newRole == old(newRole)
      ensures users == if confirmed then Without(old(users), tr) else old(users)
    {
      if confirmed {
        WithoutKeepsDistinct(users, tr);
        users := Without(users, tr);
      }
    }
  }
}
