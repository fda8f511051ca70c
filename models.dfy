/**
 * The persistent records of the catalogue (src/db/models/books.py) and the
 * user record they refer to (src/db/models/users.py), with the column
 * widths, unique columns and defaults the ORM declares.
 */
module Models {
  import opened Wrappers

  /** A calendar date, as a day number. */
  type Date = int
  /** A naive UTC timestamp in microseconds, the resolution of Python's `datetime`. */
  type Timestamp = int
  /** A UUID: 128 bits. */
  type Uuid = x: int | 0 <= x < 0x1_0000_0000_0000_0000_0000_0000_0000_0000

  const MICROSECONDS_PER_DAY := 86_400_000_000
  /** `settings.BOOK_LOAN_DAYS`, default 14 (src/core/config.py). */
  const BOOK_LOAN_DAYS := 14

  /** The id of a record that has not been inserted yet; the database assigns ids from 1. */
  const UNSAVED := 0

  // Column widths: `str_16`, `str_32`, `str_64`, `str_256`, `str_1024`
  // (src/db/models/base.py), and `EmailStr` mapped to a 64-character column.
  const GENRE_NAME_WIDTH := 16
  const AUTHOR_NAME_WIDTH := 32
  const BIOGRAPHY_WIDTH := 1024
  const TITLE_WIDTH := 64
  const DESCRIPTION_WIDTH := 256
  const PERSON_NAME_WIDTH := 16
  const EMAIL_WIDTH := 64

  datatype Genre = Genre(id: int, name: string)

  datatype Author = Author(id: int, name: string, biography: Option<string>, birthDate: Date)

  /** A book with the authors and genres its association rows link it to. */
  datatype Book = Book(
    id: int,
    title: string,
    description: Option<string>,
    publishedAt: Date,
    authors: seq<Author>,
    genres: seq<Genre>,
    availableCopies: int)

  datatype Role = Admin | Reader

  datatype User = User(
    id: Uuid,
    email: string,
    firstName: string,
    lastName: string,
    hashedPassword: seq<bv8>,
    role: Role,
    isSuperuser: bool)

  /** A loan row: exactly one book and one user, two timestamps and the returned flag. */
  datatype BookLoan = BookLoan(
    id: int,
    bookId: int,
    userId: Uuid,
    loanDate: Timestamp,
    returnDate: Timestamp,
    returned: bool)

  /** The string value of a `Role` member (`Role` is a `str` enum). */
  function RoleValue(r: Role): (s: string)
    ensures s == "admin" <==> r == Admin
  {
    match r
    case Admin => "admin"
    case Reader => "reader"
  }

  function OptionalFits(s: Option<string>, width: nat): bool {
    s.None? || |s.value| <= width
  }

  /** Whether every string column of the record fits its declared width. */
  predicate GenreFits(g: Genre) { |g.name| <= GENRE_NAME_WIDTH }
  predicate AuthorFits(a: Author) { |a.name| <= AUTHOR_NAME_WIDTH && OptionalFits(a.biography, BIOGRAPHY_WIDTH) }
  predicate BookFits(b: Book) { |b.title| <= TITLE_WIDTH && OptionalFits(b.description, DESCRIPTION_WIDTH) }
  predicate UserFits(u: User) {
    |u.email| <= EMAIL_WIDTH && |u.firstName| <= PERSON_NAME_WIDTH && |u.lastName| <= PERSON_NAME_WIDTH
  }

  /**
   * `Book(title=..., ..., available_copies=...)` before insertion. The column
   * default 0 applies when no copy count is given; an explicit None is
   * omitted from the INSERT by the ORM, so the default applies to it too.
   */
  function NewBook(title: string, description: Option<string>, publishedAt: Date,
                   authors: seq<Author>, genres: seq<Genre>, availableCopies: Option<int>): (b: Book)
    ensures b.id == UNSAVED
    ensures b.title == title && b.description == description && b.publishedAt == publishedAt
    ensures b.authors == authors && b.genres == genres
    ensures availableCopies.None? ==> b.availableCopies == 0
    ensures availableCopies.Some? ==> b.availableCopies == availableCopies.value
  {
    Book(UNSAVED, title, description, publishedAt, authors, genres, availableCopies.GetOr(0))
  }

  /**
   * A new `BookLoan` with its column defaults. `loan_date` and `return_date`
   * each read the clock on their own (`get_current_utc_datetime` and
   * `default_return_utc_datetime`), so the two readings are two parameters.
   */
  function NewBookLoan(bookId: int, userId: Uuid, loanClock: Timestamp, returnClock: Timestamp): (l: BookLoan)
    ensures l.id == UNSAVED && l.bookId == bookId && l.userId == userId
    ensures !l.returned
    ensures l.loanDate == loanClock
    ensures l.returnDate == returnClock + BOOK_LOAN_DAYS * MICROSECONDS_PER_DAY
  {
    BookLoan(UNSAVED, bookId, userId, loanClock, returnClock + BOOK_LOAN_DAYS * MICROSECONDS_PER_DAY, false)
  }
}
