/** `UserCreate.validate_password` (src/schemas/users.py): five checks, the first failure wins. */
module UserSchema {
  import opened Errors

  const MIN_PASSWORD_LENGTH := 8

  /** The character classes the rule searches for: `[A-Z]`, `[a-z]`, `[0-9]` and `[\W_]`. */
  datatype CharClass = Upper | Lower | Digit | SpecialOrUnderscore

  /**
   * A regex word character (`\w`). ASCII letters, digits and `_` are word
   * characters; every other ASCII character is not. Beyond ASCII the
   * Unicode letter/digit tables are not modelled: such characters count
   * as word characters.
   */
  predicate IsWordChar(c: char) {
    ('a' <= c <= 'z') || ('A' <= c <= 'Z') || ('0' <= c <= '9') || c == '_' || c as int > 127
  }

  predicate InClass(c: char, cls: CharClass) {
    match cls
    case Upper => 'A' <= c <= 'Z'
    case Lower => 'a' <= c <= 'z'
    case Digit => '0' <= c <= '9'
    case SpecialOrUnderscore => !IsWordChar(c) || c == '_'
  }

  /** `re.search` with a one-class pattern: some character of `p` is in `cls`. */
  function Search(p: string, cls: CharClass): (found: bool)
    ensures found <==> exists i :: 0 <= i < |p| && InClass(p[i], cls)
  {
    if p == [] then false
    else if InClass(p[0], cls) then true
    else
      var rest := Search(p[1..], cls);
      assert forall i :: 1 <= i < |p| ==> p[i] == p[1..][i - 1];
      rest
  }

  const TOO_SHORT := "Password must be at least 8 characters long"
  const NO_UPPER := "Password must contain at least one uppercase letter"
  const NO_LOWER := "Password must contain at least one lowercase letter"
  const NO_DIGIT := "Password must contain at least one digit"
  const NO_SPECIAL := "Password must contain at least one special character"

  /** The 422 a `ValueError` raised in the validator turns into. */
  function Rejected(message: string): Error {
    RequestValidation([FieldError("password", "Value error, " + message)])
  }

  function ValidatePassword(p: string): (r: Result<string>)
    // accepted exactly when long enough and one character of every class is present
    ensures r.Ok? <==> && |p| >= MIN_PASSWORD_LENGTH
                       && (exists i :: 0 <= i < |p| && 'A' <= p[i] <= 'Z')
                       && (exists i :: 0 <= i < |p| && 'a' <= p[i] <= 'z')
                       && (exists i :: 0 <= i < |p| && '0' <= p[i] <= '9')
                       && (exists i :: 0 <= i < |p| && InClass(p[i], SpecialOrUnderscore))
    // an accepted password is returned unchanged
    ensures r.Ok? ==> r.value == p
    // the checks run in order and the first failing one names the error
    ensures |p| < MIN_PASSWORD_LENGTH ==> r == Err(Rejected(TOO_SHORT))
    ensures |p| >= MIN_PASSWORD_LENGTH && !Search(p, Upper) ==> r == Err(Rejected(NO_UPPER))
    ensures |p| >= MIN_PASSWORD_LENGTH && Search(p, Upper) && !Search(p, Lower) ==> r == Err(Rejected(NO_LOWER))
    ensures (|p| >= MIN_PASSWORD_LENGTH && Search(p, Upper) && Search(p, Lower) && !Search(p, Digit))
            ==> r == Err(Rejected(NO_DIGIT))
    ensures (|p| >= MIN_PASSWORD_LENGTH && Search(p, Upper) && Search(p, Lower) && Search(p, Digit)
             && !Search(p, SpecialOrUnderscore))
            ==> r == Err(Rejected(NO_SPECIAL))
  {
    if |p| < MIN_PASSWORD_LENGTH then Err(Rejected(TOO_SHORT))
    else if !Search(p, Upper) then Err(Rejected(NO_UPPER))
    else if !Search(p, Lower) then Err(Rejected(NO_LOWER))
    else if !Search(p, Digit) then Err(Rejected(NO_DIGIT))
    else if !Search(p, SpecialOrUnderscore) then Err(Rejected(NO_SPECIAL))
    else Ok(p)
  }

  /** The password every user fixture registers with is accepted. */
  lemma FixturePasswordAccepted()
    ensures ValidatePassword("Testuser1!") == Ok("Testuser1!")
  {
    var p := "Testuser1!";
    assert InClass(p[0], Upper) && InClass(p[1], Lower) && InClass(p[8], Digit)
           && InClass(p[9], SpecialOrUnderscore);
  }

  /** An underscore alone satisfies the special-character check. */
  lemma UnderscoreCountsAsSpecial()
    ensures ValidatePassword("Testuser1_") == Ok("Testuser1_")
  {
    var p := "Testuser1_";
    assert InClass(p[0], Upper) && InClass(p[1], Lower) && InClass(p[8], Digit)
           && InClass(p[9], SpecialOrUnderscore);
  }

  /** The invalid password of the registration test is refused on length first. */
  lemma ShortPasswordRejected()
    ensures ValidatePassword("inv_pas") == Err(Rejected(TOO_SHORT))
  {
  }

  /** A long password without digits gets the digit error even though it also lacks a special character. */
  lemma FirstFailureWins()
    ensures ValidatePassword("Testuser") == Err(Rejected(NO_DIGIT))
  {
    var p := "Testuser";
    assert InClass(p[0], Upper) && InClass(p[1], Lower);
    assert !Search(p, Digit) by {
      forall i | 0 <= i < |p| ensures !InClass(p[i], Digit) {}
    }
  }
}
