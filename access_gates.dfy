/** The `admin_required` and `superuser_required` dependencies (src/core/dependencies.py). */
module AccessGates {
  import opened Errors
  import opened Models

  /** Passes the user through when the stored role is "admin"; any other role gets 403. */
  function AdminRequired(user: User): (r: Result<User>)
    ensures r.Ok? <==> RoleValue(user.role) == "admin"
    ensures r.Ok? ==> r.value == user
    ensures r.Err? ==> r.error == Forbidden && StatusOf(r.error) == HTTP_403_FORBIDDEN
  {
    if RoleValue(user.role) != "admin" then Err(Forbidden) else Ok(user)
  }

  /** Passes the user through only when `is_superuser` is true; otherwise 403. */
  function SuperuserRequired(user: User): (r: Result<User>)
    ensures r.Ok? <==> user.isSuperuser
    ensures r.Ok? ==> r.value == user
    ensures r.Err? ==> r.error == Forbidden && StatusOf(r.error) == HTTP_403_FORBIDDEN
  {
    if !user.isSuperuser then Err(Forbidden) else Ok(user)
  }

  /** Holding the admin role is not being a superuser: the two gates are independent. */
  lemma AdminIsNotSuperuser(user: User)
    requires user.role == Admin && !user.isSuperuser
    ensures AdminRequired(user) == Ok(user)
    ensures SuperuserRequired(user) == Err(Forbidden)
  {
  }

  /** A reader is refused by the admin gate whatever their superuser flag. */
  lemma ReaderIsNotAdmin(user: User)
    requires user.role == Reader
    ensures AdminRequired(user) == Err(Forbidden)
  {
  }
}
