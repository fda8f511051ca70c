/**
 * The users table and its data access (src/db/repositories/user.py). The
 * rows are kept in insertion order, the order `.first()` sees them in.
 */
module UserRepo {
  import opened Wrappers
  import opened Errors
  import opened Models

  /** Emails and ids are unique columns of `users`. */
  ghost predicate UsersUnique(rows: seq<User>) {
    forall i, j :: 0 <= i < j < |rows| ==> rows[i].email != rows[j].email && rows[i].id != rows[j].id
  }

  predicate Clashes(rows: seq<User>, u: User) {
    exists i :: 0 <= i < |rows| && (rows[i].email == u.email || rows[i].id == u.id)
  }

  /** Row `i` is the first whose email equals `email`. */
  ghost predicate FirstMatchAt(rows: seq<User>, email: string, i: int) {
    0 <= i < |rows| && rows[i].email == email && forall j :: 0 <= j < i ==> rows[j].email != email
  }

  /** The first row whose email equals `email` (`filter(User.email == email)` then `.first()`). */
  function FirstWithEmail(rows: seq<User>, email: string): (r: Option<User>)
    ensures r.None? <==> forall i :: 0 <= i < |rows| ==> rows[i].email != email
    ensures r.Some? ==> exists i :: FirstMatchAt(rows, email, i) && rows[i] == r.value
  {
    if rows == [] then None
    else if rows[0].email == email then
      assert FirstMatchAt(rows, email, 0);
      Some(rows[0])
    else
      var r := FirstWithEmail(rows[1..], email);
      assert r.Some? ==> exists i :: FirstMatchAt(rows, email, i) && rows[i] == r.value by {
        if r.Some? {
          var i :| FirstMatchAt(rows[1..], email, i) && rows[1..][i] == r.value;
          assert FirstMatchAt(rows, email, i + 1);
        }
      }
      r
  }

  class UserRepository {
    var rows: seq<User>

    ghost predicate Valid()
      reads this
    {
      UsersUnique(rows)
    }

    constructor ()
      ensures Valid() && rows == []
    {
      rows := [];
    }

    /**
     * `create`: add, commit and refresh. There is no `try` here: a clash on
     * the unique email (or id) surfaces as the raw integrity error.
     */
    method Create(user: User) returns (r: Result<User>)
      requires Valid()
      modifies this
      ensures Valid()
      ensures !UserFits(user) ==> r == Err(DataTooLong)
      ensures UserFits(user) && Clashes(old(rows), user) ==> r == Err(Integrity)
      ensures r.Err? ==> rows == old(rows)
      ensures UserFits(user) && !Clashes(old(rows), user) ==> r == Ok(user) && rows == old(rows) + [user]
    {
      if !UserFits(user) {
        return Err(DataTooLong);
      }
      if Clashes(rows, user) {
        return Err(Integrity);
      }
      rows := rows + [user];
      r := Ok(user);
    }

    /** `get_by_email`: the user with that email, or None when there is none. */
    function GetByEmail(email: string): (r: Option<User>)
      reads this
      requires Valid()
      ensures r.None? <==> forall i :: 0 <= i < |rows| ==> rows[i].email != email
      ensures r.Some? ==> r.value.email == email && r.value in rows
    {
      FirstWithEmail(rows, email)
    }
  }
}
