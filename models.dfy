/**
 * The records the core consumes (quiz/models.py): Quiz -> Question -> Answer,
 * and the user table that `User.check_existence` consults.
 */
module Models {
  import opened Wrappers

  /** An answer option; `id` is its primary key, also the name of its checkbox. */
  datatype Answer = Answer(id: int, correct: bool := false)

  /** A question and its answers; a question created without a weight is worth 1. */
  datatype Question = Question(answers: seq<Answer>, points: int := 1)

  /** A quiz: the base `points` the score starts from and its questions in query order. */
  datatype Quiz = Quiz(points: int, questions: seq<Question>)

  /** The part of a stored user that identity checks and sessions use. */
  datatype User = User(id: int, username: string, email: string)

  /** The two user columns `check_existence` looks up. */
  datatype Column = Email | Username

  function ColumnOf(u: User, c: Column): string {
    match c
    case Email => u.email
    case Username => u.username
  }

  /** Outcome of `User.objects.get(column=value)` on a table. */
  datatype Lookup = DoesNotExist | Found(user: User) | MultipleObjectsReturned

  const EmailExists: string := "Email already exist."
  const UsernameExists: string := "Username already exist."

  /** Some stored user has `value` in `column`. */
  predicate Taken(users: seq<User>, c: Column, value: string) {
    exists u :: u in users && ColumnOf(u, c) == value
  }

  /** Two different rows of the table share `value` in `column`. */
  predicate Ambiguous(users: seq<User>, c: Column, value: string) {
    exists i, j :: 0 <= i < j < |users| && ColumnOf(users[i], c) == value && ColumnOf(users[j], c) == value
  }

  /** Email and username are each unique over the stored users. */
  predicate UniqueIdentities(users: seq<User>) {
    forall i, j :: 0 <= i < j < |users| ==>
      users[i].email != users[j].email && users[i].username != users[j].username
  }

  /** The rows whose `column` equals `value`, in table order (the ORM filter). */
  function Matching(users: seq<User>, c: Column, value: string): (m: seq<User>)
    ensures forall u :: u in m <==> u in users && ColumnOf(u, c) == value
    ensures |m| <= |users|
  {
    if users == [] then []
    else (if ColumnOf(users[0], c) == value then [users[0]] else []) + Matching(users[1..], c, value)
  }

  /** A matching row at index `j` puts at least one row in the filter. */
  lemma {:induction false} MatchingHasRow(users: seq<User>, c: Column, value: string, j: nat)
    requires j < |users| && ColumnOf(users[j], c) == value
    ensures |Matching(users, c, value)| >= 1
  {
    assert users[j] in Matching(users, c, value);
  }

  /** Two matching rows put at least two rows in the filter. */
  lemma {:induction false} MatchingHasTwoRows(users: seq<User>, c: Column, value: string, i: nat, j: nat)
    requires i < j < |users| && ColumnOf(users[i], c) == value && ColumnOf(users[j], c) == value
    ensures |Matching(users, c, value)| >= 2
  {
    if i == 0 {
      MatchingHasRow(users[1..], c, value, j - 1);
    } else {
      MatchingHasTwoRows(users[1..], c, value, i - 1, j - 1);
    }
  }

  /** A row in the filter comes from a matching row. */
  lemma {:induction false} RowIsTaken(users: seq<User>, c: Column, value: string) returns (j: nat)
    requires |Matching(users, c, value)| >= 1
    ensures j < |users| && ColumnOf(users[j], c) == value
  {
    if ColumnOf(users[0], c) == value {
      j := 0;
    } else {
      j := RowIsTaken(users[1..], c, value);
      j := j + 1;
    }
  }

  /** Two rows in the filter come from two different matching rows. */
  lemma {:induction false} TwoRowsAreAmbiguous(users: seq<User>, c: Column, value: string) returns (i: nat, j: nat)
    requires |Matching(users, c, value)| >= 2
    ensures i < j < |users| && ColumnOf(users[i], c) == value && ColumnOf(users[j], c) == value
  {
    var rest := users[1..];
    if ColumnOf(users[0], c) == value {
      assert Matching(users, c, value) == [users[0]] + Matching(rest, c, value);
      j := RowIsTaken(rest, c, value);
      i, j := 0, j + 1;
    } else {
      assert Matching(users, c, value) == Matching(rest, c, value);
      i, j := TwoRowsAreAmbiguous(rest, c, value);
      i, j := i + 1, j + 1;
    }
  }

  /** More than one matching row is exactly the ambiguous case. */
  lemma MatchingAmbiguous(users: seq<User>, c: Column, value: string)
    ensures |Matching(users, c, value)| >= 2 <==> Ambiguous(users, c, value)
  {
    if Ambiguous(users, c, value) {
      var i, j :| 0 <= i < j < |users| && ColumnOf(users[i], c) == value && ColumnOf(users[j], c) == value;
      MatchingHasTwoRows(users, c, value, i, j);
    }
    if |Matching(users, c, value)| >= 2 {
      var i, j := TwoRowsAreAmbiguous(users, c, value);
    }
  }

  /** `User.objects.get(column=value)`: no row, exactly one row, or an exception for several. */
  function Get(users: seq<User>, c: Column, value: string): (r: Lookup)
    ensures r.DoesNotExist? <==> !Taken(users, c, value)
    ensures r.Found? ==> r.user in users && ColumnOf(r.user, c) == value
    ensures r.MultipleObjectsReturned? <==> Ambiguous(users, c, value)
  {
    MatchingAmbiguous(users, c, value);
    var m := Matching(users, c, value);
    assert m == [] <==> !Taken(users, c, value) by {
      if m != [] { assert m[0] in m; }
    }
    if |m| == 0 then DoesNotExist
    else if |m| == 1 then Found(m[0])
    else MultipleObjectsReturned
  }

  /**
   * `User.check_existence` for a candidate user: the email is looked up first,
   * the username second, and a username clash overwrites an email clash.
   * A lookup that matches several rows raises, which is the `Failure` case.
   */
  function CheckExistence(users: seq<User>, candidate: User): (r: Result<Option<string>, Lookup>)
    ensures r.Failure? <==> Ambiguous(users, Email, candidate.email) || Ambiguous(users, Username, candidate.username)
    ensures r.Failure? ==> r.error == MultipleObjectsReturned
    ensures r.Success? ==> (r.value == None <==> !Taken(users, Email, candidate.email) && !Taken(users, Username, candidate.username))
    ensures r.Success? && Taken(users, Username, candidate.username) ==> r.value == Some(UsernameExists)
    ensures r.Success? && Taken(users, Email, candidate.email) && !Taken(users, Username, candidate.username) ==> r.value == Some(EmailExists)
  {
    var byEmail := Get(users, Email, candidate.email);
    if byEmail.MultipleObjectsReturned? then Failure(byEmail)
    else
      var error := if byEmail.Found? then Some(EmailExists) else None;
      var byUsername := Get(users, Username, candidate.username);
      if byUsername.MultipleObjectsReturned? then Failure(byUsername)
      else if byUsername.Found? then Success(Some(UsernameExists))
      else Success(error)
  }

  /** On a table that keeps both columns unique, `check_existence` never raises. */
  lemma UniqueTableNeverRaises(users: seq<User>, candidate: User)
    requires UniqueIdentities(users)
    ensures CheckExistence(users, candidate).Success?
  {
  }
}
