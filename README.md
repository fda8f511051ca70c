# LibraryAPI catalog, validators and access checks in Dafny

This project models the core of LibraryAPI, a FastAPI library-management
service. The model covers four areas:

- **The catalog layer.** Books, authors and genres live in tables with
  unique titles and names. Repositories insert, look up, update and remove
  rows; the source defines only the inserts for books and authors, and the
  other operations the services call on them are given table semantics
  here (see "Left out"). Services resolve lists of author and genre ids, apply partial
  updates and turn a missing row into a 404. The users table supports
  insert and lookup by email.
- **Request validators.** These cover the `BookCreate` and `BookUpdate`
  bodies, including the coercion of a bare integer to a one-element id
  list, the `PaginationParams` bounds and the password rule of `UserCreate`.
- **Tokens and gates.** The model covers the claims `create_token` builds,
  the checks `validate_token` makes on a decoded payload, and the
  `admin_required` and `superuser_required` gates.
- **Errors.** The exception classes and the HTTP status each one carries.

## How the model is shaped

- A raised exception is an `Err` value of `Errors.Result` (or a `Fail` of
  `Errors.Outcome` for operations returning nothing).
- `Errors.Error` has four kinds:
  - `Http(status, detail)` for `HTTPException` and every `AppException`;
  - `Integrity` for a unique-constraint violation that no code translates;
  - `DataTooLong` for a string wider than its `String(n)` column;
  - `RequestValidation` for a 422 schema error.
- Each repository is a class that owns its table:
  - books, authors and genres are a `map<int, Record>` keyed by id, with a
    `nextId` counter (ids start at 1);
  - users are a `seq<User>` in insertion order;
  - `Valid()` states that keys match ids and that titles or names (for
    users, emails and ids) are unique.
- On a uniqueness error a method's postcondition says the table is exactly
  as before. This is the effect of the rollback.
- Services are classes that hold their repositories. `BookService` builds its
  own `AuthorService` and `GenreService` over the author and genre tables, as
  the source builds them over one session.
- The `setattr` loops of the two `update` operations are methods with a loop
  (`ApplyUpdate`). Each is proved equal to a reference definition of the
  partial update (`Patched`).
- Parameters stand in for the clock reading (`now`, loan clocks), the date
  parser of pydantic and the token expiry settings.

Three behaviours of the code shape the model:

- Resolving a list of author or genre ids fails only when *none* of the ids
  is stored. A partial match returns the rows that were found
  (src/db/repositories/genre.py:26-30).
- The admin and superuser gates answer 403 with "You do not have permission
  to access this resource" (src/core/dependencies.py:48 and :59). The
  integration tests at tests/integration/test_user.py:193-195 and :212-214
  expect "Permission denied" from 403 answers of user routes
  (`PATCH /api/v1/users/{id}/change-role`, `GET /api/v1/users`) that
  src/api/v1/user.py does not define, so nothing ties that text to the gates;
  the model keeps the gates' own text.
- A database error that reaches the session dependency `get_db` becomes a
  503 "Database connection error" (src/db/database.py:17-25). The model
  therefore surfaces an untranslated uniqueness or column-width error as that
  503 (`Errors.Surfaced`). The test suite's replacement session dependency
  (tests/conftest.py:42-47) has no such handler, so under the tests the
  same error would not be translated.

## Model

| member | source | states |
|---|---|---|
| `Errors.Surfaced` | src/db/database.py:17-25 | A uniqueness or column-width error from the database leaves the session dependency as 503 "Database connection error"; every other error passes through unchanged |
| `Errors.StatusOf` | src/db/database.py:17-25 | An `HTTPException` keeps its status, a validation error is 422, a database error no code translated is 503 |
| `Errors.AppException` | src/core/exceptions/base.py:5-7 | The status and the detail are kept exactly as given |
| `Errors.NotFoundException` | src/core/exceptions/base.py:10-12 | Always 404, with the given detail |
| `Errors.AlreadyExistsException` | src/core/exceptions/base.py:15-19 | 400 unless another status is passed, with the given detail |
| `Errors.UnauthorizedException` | src/core/exceptions/base.py:22-26 | 401 unless another status is passed, with the given detail |
| `Errors.TokenTypeMismatch` | src/core/validations.py:17-21 | 401 whose detail names the current and the expected token type |
| `Models.RoleValue` | src/db/models/users.py:17-19 | The stored role string is "admin" exactly for the admin role |
| `Models.NewBook` | src/db/models/books.py:45-61 | A new book keeps the given fields and links; no copy count (or None) means 0 copies |
| `Models.NewBookLoan` | src/db/models/books.py:82-100 | A new loan references one book and one user, is not returned, starts at its clock reading and is due BOOK_LOAN_DAYS (14) days after its own clock reading |
| `Store.PresentIds` | src/db/repositories/genre.py:27 | The `id IN (...)` filter: exactly the requested ids that are stored, each once |
| `Store.KeysInRange` | src/services/book.py:38-40 | The stored ids in ascending order, none left out |
| `Store.Page` | src/services/book.py:38-40 | LIMIT/OFFSET: at most `limit` rows, starting at row `offset`, in order |
| `Store.PagesTile` | src/schemas/common.py:4-6 | Over any ordered result, two consecutive pages of size n together are the page of size 2n |
| `Store.SortedListing` | src/services/book.py:38-40 | An ascending listing of exactly the stored ids has one entry per id, and each id sits at its rank (the number of smaller ids) |
| `Store.PageKeys` | src/services/book.py:38-40 | One page of ids in id order: min(limit, stored - offset) ids (none past the end), ascending, the i-th having exactly offset + i stored ids below it |
| `Store.PageKeysTile` | src/services/book.py:38-40 | Two consecutive pages of ids are the page of twice the size |
| `GenreRepo.GenreRepository.constructor` | src/db/repositories/genre.py:10-11 | A repository starts over an empty, valid table |
| `GenreRepo.GenreRepository.Create` | src/db/repositories/genre.py:13-24 | A fresh name adds exactly the returned genre under a new id; a taken name gives 400 "Genre with this name already exists." with the table unchanged |
| `GenreRepo.GenreRepository.GetByIdsOrNone` | src/db/repositories/genre.py:26-30 | None exactly when no requested id is stored (empty input included); otherwise every stored requested genre, each once, and nothing else |
| `GenreServices.GenreService.Create` | src/services/genre.py:13-18 | Succeeds exactly when the name fits and is free; the stored genre has the given name; any error leaves the table as it was |
| `GenreServices.GenreService.GetByIdsOrRaise` | src/services/genre.py:20-24 | GenreNotFound exactly when the repository returns None, which is exactly when none of the ids is stored; otherwise the repository's list unchanged |
| `AuthorRepo.AuthorRepository.Create` | src/db/repositories/author.py:12-23 | A fresh name adds exactly the returned author; a taken name gives 400 "Author with this name already exists." with the table unchanged |
| `AuthorRepo.AuthorRepository.GetByIdOrNone` | src/services/author.py:30-31 | The stored author with that id, None when absent |
| `AuthorRepo.AuthorRepository.GetByIdsOrNone` | src/services/author.py:36-37 | As the genre lookup: None iff no id is stored, else each stored requested author once |
| `AuthorRepo.AuthorRepository.GetAllWithPagination` | src/services/author.py:22-28 | min(limit, stored - offset) stored authors (none when offset is past the end), ascending by id, the i-th having exactly offset + i authors before it |
| `AuthorRepo.AuthorRepository.Update` | src/services/author.py:48 | Replaces only that row; a name held by another row is an integrity error with nothing changed |
| `AuthorRepo.AuthorRepository.Delete` | src/services/author.py:53 | Removes exactly that row |
| `AuthorServices.Patched` | src/services/author.py:44-47 | The partial update keeps the author's id |
| `AuthorServices.SetAllAppend` | src/services/author.py:44-47 | Setting fields in two batches is setting them all in order |
| `AuthorServices.DumpThenSetAllIsPatched` | src/services/author.py:44-47 | Setting the dumped non-None fields one by one is the partial update |
| `AuthorServices.ApplyUpdate` | src/services/author.py:44-47 | The `setattr` loop produces exactly the partial update: supplied fields replaced, the rest and the id kept |
| `AuthorServices.PatchedEmptyAndIdempotent` | src/services/author.py:44-47 | An empty update changes nothing; applying an update twice equals applying it once |
| `AuthorServices.AuthorService.constructor` | src/services/author.py:10-11 | The service works over the given authors table |
| `AuthorServices.AuthorService.Create` | src/services/author.py:13-20 | Succeeds exactly when the author fits and the name is free; the stored author has the given name, biography and birth date under a new id; errors change nothing |
| `AuthorServices.AuthorService.GetAllWithPagination` | src/services/author.py:22-28 | The repository's page unchanged: min(limit, stored - offset) stored authors, the i-th having offset + i authors before it |
| `AuthorServices.AuthorService.GetByIdOrRaise` | src/services/author.py:30-34 | The stored author when the id is present, AuthorNotFound otherwise |
| `AuthorServices.AuthorService.GetByIdsOrRaise` | src/services/author.py:36-40 | AuthorNotFound exactly when the repository returns None (no id stored); otherwise its list unchanged |
| `AuthorServices.AuthorService.Update` | src/services/author.py:42-49 | A missing id gives AuthorNotFound; otherwise the row becomes the partial update of the stored author and no other row changes; any error leaves the table as it was |
| `AuthorServices.AuthorService.Delete` | src/services/author.py:51-53 | Removes exactly that author, or gives AuthorNotFound and changes nothing |
| `BookRepo.BookRepository.Create` | src/db/repositories/book.py:12-22 | A fresh title adds exactly the returned book; a taken title gives 400 "Book with this title already exists." with the table unchanged |
| `BookRepo.BookRepository.GetByIdOrNone` | src/services/book.py:44 | The stored book with that id, None when absent |
| `BookRepo.BookRepository.GetAllWithPagination` | src/services/book.py:38-40 | min(limit, stored - offset) stored books (none when offset is past the end), ascending by id, the i-th having exactly offset + i books before it |
| `BookRepo.BookRepository.ConsecutivePagesTile` | src/services/book.py:38-40 | Reading page after page yields the same books as one page of the combined size: no book skipped or repeated |
| `BookRepo.BookRepository.Update` | src/services/book.py:63 | Replaces only that row; a title held by another row is an integrity error with nothing changed |
| `BookRepo.BookRepository.Delete` | src/services/book.py:68 | Removes exactly that row |
| `BookSchema.ConvertToList` | src/schemas/book.py:21-25 | A bare int n becomes [n]; any other value passes unchanged |
| `BookSchema.ConvertToListIdempotent` | src/schemas/book.py:21-25 | Applying the coercion twice equals applying it once |
| `BookSchema.IntItems` | src/schemas/book.py:18-19 | A list validates as `list[int]` exactly when every item is an int, and yields those ints in order |
| `BookSchema.AsIntList` | src/schemas/book.py:18-19 | `list[int]` accepts exactly lists of ints and keeps their values and order |
| `BookSchema.RequiredString` | src/schemas/book.py:11 | A required string accepted exactly when present, a string, and within the length limit; its value is the body's string; a failure is located at the field |
| `BookSchema.OptionalString` | src/schemas/book.py:12 | An optional string is None when absent or null and bounded in length otherwise; a failure is located at the field |
| `BookSchema.OptionalInt` | src/schemas/book.py:14 | Absent gives the field's default, null gives None, an int is kept, anything else fails at the field |
| `BookSchema.RequiredDate` | src/schemas/book.py:13 | A required date accepted exactly when its string parses, with the parsed date as value; a failure is located at the field |
| `BookSchema.OptionalDate` | src/schemas/book.py:39 | An optional date: absent or null is accepted as None, a string is accepted exactly when it parses and gives the parsed date; a failure is located at the field |
| `BookSchema.RequiredIdList` | src/schemas/book.py:18-25 | A bare int n gives [n]; a list goes through `list[int]`; absence, null, a string or anything else that is neither an int nor a list is an error; a failure is located at the field |
| `BookSchema.OptionalIdList` | src/schemas/book.py:41-42 | In an update, absent or null is None; any other non-list, a bare int included (no coercion there), is refused; a good list is kept; a failure is located at the field |
| `BookSchema.ReportedConcat` | src/schemas/book.py:10-25 | A field is reported in two error lists joined exactly when it is reported in one of them |
| `BookSchema.ReportedInParts` | src/schemas/book.py:10-25 | When each field's errors sit at that field, a field is reported in the joined list exactly when one of its parts is non-empty |
| `BookSchema.ReportedAtOwnField` | src/schemas/book.py:10-25 | With distinct fields, a field is reported exactly when its own check produced an error |
| `BookSchema.ReportedPerField` | src/schemas/book.py:10-42 | In the six-field error list of a book body, each field is reported exactly when its own check failed |
| `BookSchema.ValidateBookCreate` | src/schemas/book.py:10-25 | Accepted exactly when every field validates, and then the accepted body is made of the six field checks' values; title at most 64 and description at most 256 characters; copies default to 0 and description to None; bare ids become one-element lists; on rejection each field is reported exactly when its own check failed |
| `BookSchema.ValidateBookUpdate` | src/schemas/book.py:36-42 | Every field optional with the same length limits; accepted exactly when every supplied field validates, and then the update is made of the six field checks' values; on rejection each field is reported exactly when its own check failed |
| `BookSchema.NullIsLikeAbsent` | src/schemas/book.py:36-42 | In an update, an explicit null is read exactly like an absent field |
| `BookSchema.EmptyUpdateIsValid` | src/schemas/book.py:36-42 | An empty body is a valid update that supplies nothing |
| `BookSchema.CreateBodyWithBareIds` | tests/integration/test_book.py:43-53 | A body with bare int ids and no description or copies validates to one-element id lists, no description and 0 copies |
| `BookSchema.InvalidCreateBodyHasFourErrors` | tests/integration/test_book.py:225-253 | No title, an unparsable date and string ids give exactly four errors |
| `BookServices.Patched` | src/services/book.py:59-62 | The scalar partial update keeps the book's id |
| `BookServices.SetAllSnoc` | src/services/book.py:59-62 | One more dumped field is one more `setattr` |
| `BookServices.DumpThenSetAllIsPatched` | src/services/book.py:59-62 | Setting the dumped fields one by one is the partial update; the id-list keys set no column |
| `BookServices.ApplyUpdate` | src/services/book.py:59-62 | The `setattr` loop produces exactly the partial update of the scalar fields |
| `BookServices.PatchedKeepsLinksAndIsIdempotent` | src/services/book.py:59-62 | The loop never changes authors or genres; an update with no scalars changes nothing; applying one twice equals applying it once |
| `BookServices.ValidatedCreateFitsColumns` | src/schemas/book.py:11-12 | A validated create body always fits the title and description columns |
| `BookServices.BookService.constructor` | src/services/book.py:12-15 | The service works over the given books table and builds author and genre services over their tables |
| `BookServices.BookService.Prepared` | src/services/book.py:18-31 | Succeeds exactly when both the author and the genre resolution succeed; authors are resolved before genres, so AuthorNotFound wins when both fail; otherwise the new book carries the request's fields and the resolved lists |
| `BookServices.BookService.Create` | src/services/book.py:17-33 | A failed resolution stores nothing; otherwise the book is inserted as the repository's create says (fresh title: added exactly, taken title: 400 and unchanged) |
| `BookServices.BookService.GetAllWithPagination` | src/services/book.py:35-41 | The repository's page unchanged: min(limit, stored - offset) stored books, the i-th having offset + i books before it |
| `BookServices.BookService.GetByIdOrRaise` | src/services/book.py:43-47 | The stored book when the id is present, BookNotFound otherwise |
| `BookServices.BookService.Relinked` | src/services/book.py:51-58 | Succeeds exactly when every supplied (non-empty) id list resolves; a non-empty `author_ids` replaces the authors by the resolved ones, and likewise for genres; None or [] keeps them; only the links change; a resolution failure is the error, authors first |
| `BookServices.BookService.Update` | src/services/book.py:49-64 | A missing id gives BookNotFound; otherwise the row becomes the relinked, partially updated book, its id kept and no other row changed; every error leaves the table as it was |
| `BookServices.BookService.Delete` | src/services/book.py:66-68 | Removes exactly that book, or gives BookNotFound and changes nothing |
| `UserRepo.FirstWithEmail` | src/db/repositories/user.py:18-21 | None iff no stored user has the email; otherwise the first such user in table order |
| `UserRepo.UserRepository.Create` | src/db/repositories/user.py:12-16 | Adds the user at the end; a clashing email or id is the raw integrity error (no 400 translation) with nothing changed |
| `UserRepo.UserRepository.GetByEmail` | src/db/repositories/user.py:18-21 | A returned user is stored and has the queried email; None iff none does |
| `UserSchema.Search` | src/schemas/users.py:20-27 | `re.search` with one character class finds a match iff some character is in the class |
| `UserSchema.ValidatePassword` | src/schemas/users.py:16-28 | Accepted iff at least 8 characters with an uppercase letter, a lowercase letter, a digit and a non-word character or underscore; the checks run in order and the first failure names the error; an accepted password is returned unchanged |
| `UserSchema.FixturePasswordAccepted` | tests/integration/test_user.py:15 | "Testuser1!" is accepted |
| `UserSchema.UnderscoreCountsAsSpecial` | src/schemas/users.py:26-27 | An underscore satisfies the special-character rule |
| `UserSchema.ShortPasswordRejected` | tests/integration/test_user.py:143-171 | "inv_pas" is refused as too short |
| `UserSchema.FirstFailureWins` | src/schemas/users.py:18-27 | A password lacking both a digit and a special character gets the digit error |
| `Text.NatToString` | src/core/validations.py:20 | The decimal digits of n: they read back as n, and only 0 has a leading zero |
| `Text.IntToString` | src/core/validations.py:20 | `str(n)`: a leading minus exactly for negative n, followed by digits that read back as the magnitude; no leading zero except for 0 itself |
| `Pagination.Bounded` | src/schemas/common.py:5-6 | A bounded integer field is accepted iff within its bounds, and defaults when absent |
| `Pagination.ListedPerField` | src/schemas/common.py:4-6 | With one error per failed field, `limit` and `offset` are each listed exactly when their own check failed |
| `Pagination.Combine` | src/schemas/common.py:4-6 | The parameters are accepted iff both fields are, with both values; on failure the errors of limit come first |
| `Pagination.ValidatePagination` | src/schemas/common.py:4-6 | limit defaults to 10 and is accepted iff 0 < limit <= 100; offset defaults to 0 and is accepted iff offset >= 0; on failure each field is reported exactly when it is out of bounds, limit first |
| `Pagination.ValidateListQuery` | src/api/v1/book.py:44-45 | The list route accepts iff 1 <= limit <= 100 and offset >= 0; on failure each parameter is reported exactly when it is out of bounds, limit first |
| `Pagination.RouteBoundsMatchSchema` | src/api/v1/book.py:44-45 | The route's bounds and the schema's accept the same queries and yield the same parameters |
| `Pagination.DefaultsAreFirstTen` | src/schemas/common.py:5-6 | With nothing supplied the parameters are limit 10, offset 0 |
| `TokenClaims.CreateToken` | src/core/auth.py:9-16 | The claims are a copy of the data plus "exp" = now + delta and "type" = the token type, which overrides any "type" in the data; other keys are kept |
| `TokenClaims.CreateAccessToken` | src/core/auth.py:19-23 | Stamped "access", expiring the configured minutes after now |
| `TokenClaims.CreateRefreshToken` | src/core/auth.py:26-30 | Stamped "refresh", expiring the configured days after now |
| `TokenValidation.TypeClaim` | src/core/validations.py:16 | `payload.get("type")`: present exactly when the key is |
| `TokenValidation.ValidateToken` | src/core/validations.py:12-23 | Accepts iff the type claim is the expected string and "sub" is present; a type mismatch (a missing type included) is checked first and gives the 401 naming both types; otherwise a missing "sub" gives InvalidToken |
| `TokenValidation.MissingTypeIsRefused` | src/core/validations.py:16-21 | A payload with no "type" is refused and the message shows None |
| `TokenValidation.AccessClaimsAreAccessOnly` | src/core/auth.py:19-23 | Access claims with "sub" pass the access check and fail the refresh check |
| `TokenValidation.RefreshClaimsAreRefreshOnly` | src/core/auth.py:26-30 | Refresh claims with "sub" pass the refresh check and fail the access check |
| `TokenValidation.StampedTypeOverridesData` | src/core/auth.py:12 | A "type" in the caller's data cannot make access claims fail the access check |
| `AccessGates.AdminRequired` | src/core/dependencies.py:42-50 | Returns the same user iff the role is "admin"; otherwise 403 |
| `AccessGates.SuperuserRequired` | src/core/dependencies.py:53-61 | Returns the same user iff `is_superuser` is true; otherwise 403 |
| `AccessGates.AdminIsNotSuperuser` | src/core/dependencies.py:42-61 | An admin who is not a superuser passes the admin gate and fails the superuser gate |
| `AccessGates.ReaderIsNotAdmin` | src/core/dependencies.py:42-50 | A reader is refused by the admin gate |

## Left out

- The loan lifecycle (lending, returning, per-user limits, statistics) has no implementation to model. `lend` is called by the router but defined nowhere. Only the `BookLoan` record and its defaults are modelled.
- Concurrency: the services are asynchronous but have no locking. The model runs one call at a time.
- Routers, application wiring, logging, database sessions and configuration loading are framework plumbing. The token expiry lengths and the clock are parameters. BOOK_LOAN_DAYS is the constant 14.
- JWT signing and decoding, bcrypt hashing, and login and registration (src/core/security.py, src/services/auth.py, src/services/user.py) are not part of this model. `validate_token` is modelled on an already decoded payload.
- `jsonable_encoder` is not modelled: the caller's claims are taken as already JSON-encoded values. Floats, lists and objects are not among the claim values.
- Books hold copies of their author and genre records. Renaming or deleting an author or genre is not propagated to the books that link it.
- Listing: the listing queries are not in the source; the model lists in ascending id order.
- `AuthorRepo.AuthorRepository.GetByIdOrNone`, `AuthorRepo.AuthorRepository.GetByIdsOrNone`, `AuthorRepo.AuthorRepository.GetAllWithPagination`, `AuthorRepo.AuthorRepository.Update`, `AuthorRepo.AuthorRepository.Delete`, `BookRepo.BookRepository.GetByIdOrNone`, `BookRepo.BookRepository.GetAllWithPagination`, `BookRepo.BookRepository.Update` and `BookRepo.BookRepository.Delete`: the author and book repositories (src/db/repositories/author.py:8-23, src/db/repositories/book.py:8-22) define only `create`. These operations are called by the services (src/services/author.py:25, 30, 36, 48, 53 and src/services/book.py:38, 44, 63, 68) but defined nowhere. The model gives them table semantics: lookup by key, replace one row, remove one row, and a page of the rows in id order. The author `GetByIdsOrNone` mirrors the genre one (src/db/repositories/genre.py:26-30), and `Update` commits the way `create` does, without translating a uniqueness error.
- Uniqueness of `books.title` and `authors.name` follows the ORM models (src/db/models/books.py:49 and :71), which the test suite's `create_all` builds (tests/conftest.py:53). The initial migration (src/migrations/versions/2025_02_17_1312-f65ea21ee1a9_initial_migrations.py:23-39) creates neither constraint. Under the migrated schema, `BookRepo.BookRepository.Create` and `AuthorRepo.AuthorRepository.Create` would store duplicate titles or names; the model follows the ORM schema.
- Ids of failed inserts: a real sequence may skip ids after a rolled-back insert. Here an id is consumed only by a successful insert.
- Pydantic's lax coercions are not modelled. A numeric string is not parsed as an int. A date comes only from a string through the date parser parameter.
- Validation messages follow pydantic's wording but are not exact. A bad item of an id list is one error for the whole list, not one per item.
- `UserSchema.ValidatePassword`: non-ASCII letters and digits are word characters under the Unicode `\w`. This model treats every non-ASCII character as a word character. Non-ASCII punctuation therefore does not satisfy the special-character rule here.
- The book-not-found message: the message module defines no such text. "Book not found" is used as the detail.
- Column widths come from the `String(n)` types of the ORM models. A string that is too long is the database's error (`DataTooLong`), not a 400; it leaves the session dependency as the 503 of `Errors.Surfaced`.
- `AuthorServices.AuthorService.GetAllWithPagination` and `BookServices.BookService.GetAllWithPagination`: the response-model conversion is not modelled. The services return the stored records.
