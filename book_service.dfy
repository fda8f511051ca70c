/**
 * Book creation, lookup, listing, partial update and deletion
 * (src/services/book.py). A `BookService` works over the books table and,
 * through its own author and genre services, over the authors and genres
 * tables, as the source's service does over one session.
 */
module BookServices {
  import opened Wrappers
  import opened Errors
  import opened Models
  import opened BookRepo
  import opened BookSchema
  import AuthorRepo
  import GenreRepo
  import AuthorServices
  import GenreServices
  import Store

  /** One `(key, value)` item of the dumped `BookUpdate`. */
  datatype BookField =
    | TitleField(title: string)
    | DescriptionField(description: string)
    | PublishedAtField(publishedAt: Date)
    | AvailableCopiesField(copies: int)
    | AuthorIdsField(authorIds: seq<int>)
    | GenreIdsField(genreIds: seq<int>)

  /** `model_dump(exclude_none=True, exclude_unset=True)`: the supplied non-None fields, in declaration order. */
  function Dump(u: BookUpdate): seq<BookField>
  {
    (if u.title.Some? then [TitleField(u.title.value)] else [])
    + (if u.description.Some? then [DescriptionField(u.description.value)] else [])
    + (if u.publishedAt.Some? then [PublishedAtField(u.publishedAt.value)] else [])
    + (if u.availableCopies.Some? then [AvailableCopiesField(u.availableCopies.value)] else [])
    + (if u.authorIds.Some? then [AuthorIdsField(u.authorIds.value)] else [])
    + (if u.genreIds.Some? then [GenreIdsField(u.genreIds.value)] else [])
  }

  /**
   * `setattr(book, key, value)`. `author_ids` and `genre_ids` are not
   * mapped attributes of `Book`: setting them leaves every column and
   * relationship as it was.
   */
  function SetAttr(b: Book, f: BookField): Book {
    match f
    case TitleField(t) => b.(title := t)
    case DescriptionField(d) => b.(description := Some(d))
    case PublishedAtField(p) => b.(publishedAt := p)
    case AvailableCopiesField(c) => b.(availableCopies := c)
    case AuthorIdsField(_) => b
    case GenreIdsField(_) => b
  }

  /** The `setattr` calls of `fields`, made in order. */
  function SetAll(b: Book, fields: seq<BookField>): Book {
    if fields == [] then b else SetAttr(SetAll(b, fields[..|fields| - 1]), fields[|fields| - 1])
  }

  /**
   * What the partial update of the scalar fields means: each one the update
   * supplies with a value replaces the stored one; the id, the other
   * scalars, the authors and the genres are kept.
   */
  function Patched(b: Book, u: BookUpdate): (p: Book)
    ensures p.id == b.id
  {
    Book(b.id,
         if u.title.Some? then u.title.value else b.title,
         if u.description.Some? then u.description else b.description,
         if u.publishedAt.Some? then u.publishedAt.value else b.publishedAt,
         b.authors,
         b.genres,
         if u.availableCopies.Some? then u.availableCopies.value else b.availableCopies)
  }

  /** Appending at most one field to the calls is one more `setattr`. */
  lemma SetAllSnoc(b: Book, xs: seq<BookField>, x: seq<BookField>)
    requires |x| <= 1
    ensures SetAll(b, xs + x) == if x == [] then SetAll(b, xs) else SetAttr(SetAll(b, xs), x[0])
  {
    if x == [] {
      assert xs + x == xs;
    } else {
      assert (xs + x)[..|xs + x| - 1] == xs;
    }
  }

  /** Setting the dumped fields one by one is the partial update. */
  lemma DumpThenSetAllIsPatched(b: Book, u: BookUpdate)
    ensures SetAll(b, Dump(u)) == Patched(b, u)
  {
    var t := if u.title.Some? then [TitleField(u.title.value)] else [];
    var d := if u.description.Some? then [DescriptionField(u.description.value)] else [];
    var p := if u.publishedAt.Some? then [PublishedAtField(u.publishedAt.value)] else [];
    var c := if u.availableCopies.Some? then [AvailableCopiesField(u.availableCopies.value)] else [];
    var a := if u.authorIds.Some? then [AuthorIdsField(u.authorIds.value)] else [];
    var g := if u.genreIds.Some? then [GenreIdsField(u.genreIds.value)] else [];
    SetAllSnoc(b, [], t);
    assert [] + t == t;
    var s1 := SetAll(b, t);
    assert s1 == b.(title := if u.title.Some? then u.title.value else b.title);
    SetAllSnoc(b, t, d);
    var s2 := SetAll(b, t + d);
    assert s2 == s1.(description := if u.description.Some? then u.description else b.description);
    SetAllSnoc(b, t + d, p);
    var s3 := SetAll(b, t + d + p);
    assert s3 == s2.(publishedAt := if u.publishedAt.Some? then u.publishedAt.value else b.publishedAt);
    SetAllSnoc(b, t + d + p, c);
    var s4 := SetAll(b, t + d + p + c);
    assert s4 == s3.(availableCopies := if u.availableCopies.Some? then u.availableCopies.value else b.availableCopies);
    SetAllSnoc(b, t + d + p + c, a);
    assert SetAll(b, t + d + p + c + a) == s4;
    SetAllSnoc(b, t + d + p + c + a, g);
    assert SetAll(b, t + d + p + c + a + g) == s4;
    assert Dump(u) == t + d + p + c + a + g;
  }

  /** The `for key, value in ...: setattr(book, key, value)` loop of `update`. */
  method ApplyUpdate(b: Book, u: BookUpdate) returns (p: Book)
    ensures p == Patched(b, u)
  {
    var fields := Dump(u);
    p := b;
    for i := 0 to |fields|
      invariant p == SetAll(b, fields[..i])
    {
      assert fields[..i + 1][..i] == fields[..i];
      p := SetAttr(p, fields[i]);
    }
    assert fields[..|fields|] == fields;
    DumpThenSetAllIsPatched(b, u);
  }

  /**
   * The scalar update never touches the links: authors and genres stay as
   * they are whatever ids the update carries. An update that supplies
   * nothing changes nothing, and applying an update twice is applying it once.
   */
  lemma PatchedKeepsLinksAndIsIdempotent(b: Book, u: BookUpdate)
    ensures Patched(b, u).authors == b.authors && Patched(b, u).genres == b.genres
    ensures Patched(b, BookUpdate(None, None, None, None, u.authorIds, u.genreIds)) == b
    ensures Patched(Patched(b, u), u) == Patched(b, u)
  {
  }

  /**
   * The schema's length limits are the column widths, so a validated
   * request never reaches the database's data error on create.
   */
  lemma ValidatedCreateFitsColumns(body: JsonObject, parseDate: DateParser, authors: seq<Author>, genres: seq<Genre>)
    requires ValidateBookCreate(body, parseDate).Ok?
    ensures var data := ValidateBookCreate(body, parseDate).value;
            BookFits(NewBook(data.title, data.description, data.publishedAt, authors, genres, data.availableCopies))
  {
  }

  /** Python truthiness of an optional id list: present and non-empty. */
  predicate Supplied(ids: Option<seq<int>>) {
    ids.Some? && |ids.value| > 0
  }

  class BookService {
    const bookRepo: BookRepository
    const authorService: AuthorServices.AuthorService
    const genreService: GenreServices.GenreService

    ghost predicate Valid()
      reads bookRepo, authorService.repo, genreService.repo
    {
      bookRepo.Valid() && authorService.Valid() && genreService.Valid()
    }

    constructor (books: BookRepository, authors: AuthorRepo.AuthorRepository, genres: GenreRepo.GenreRepository)
      ensures bookRepo == books && authorService.repo == authors && genreService.repo == genres
    {
      bookRepo := books;
      authorService := new AuthorServices.AuthorService(authors);
      genreService := new GenreServices.GenreService(genres);
    }

    /**
     * The book `create` is about to insert: the authors are resolved first,
     * then the genres, and the first failure is the result.
     */
    function Prepared(data: BookCreate): (r: Result<Book>)
      reads authorService.repo, genreService.repo
      requires authorService.Valid() && genreService.Valid()
      ensures r.Ok? <==> authorService.GetByIdsOrRaise(data.authorIds).Ok?
                         && genreService.GetByIdsOrRaise(data.genreIds).Ok?
      ensures authorService.GetByIdsOrRaise(data.authorIds).Err? ==> r == Err(AuthorNotFound)
      ensures (authorService.GetByIdsOrRaise(data.authorIds).Ok?
               && genreService.GetByIdsOrRaise(data.genreIds).Err?) ==> r == Err(GenreNotFound)
      ensures r.Ok? ==> && r.value.id == UNSAVED
                        && r.value.title == data.title && r.value.description == data.description
                        && r.value.publishedAt == data.publishedAt
                        && r.value.authors == authorService.GetByIdsOrRaise(data.authorIds).value
                        && r.value.genres == genreService.GetByIdsOrRaise(data.genreIds).value
                        && r.value.availableCopies == data.availableCopies.GetOr(0)
    {
      var authors := authorService.GetByIdsOrRaise(data.authorIds);
      var genres := genreService.GetByIdsOrRaise(data.genreIds);
      if authors.Err? then Err(authors.error)
      else if genres.Err? then Err(genres.error)
      else Ok(NewBook(data.title, data.description, data.publishedAt,
                      authors.value, genres.value, data.availableCopies))
    }

    /**
     * `create`: resolve, then insert. A failed resolution stores nothing;
     * the insert keeps every field of the request and the resolved links.
     */
    method Create(data: BookCreate) returns (r: Result<Book>)
      requires Valid()
      modifies bookRepo
      ensures Valid()
      ensures r.Err? ==> bookRepo.rows == old(bookRepo.rows)
      ensures Prepared(data).Err? ==> r == Prepared(data)
      ensures Prepared(data).Ok? ==>
        var b := Prepared(data).value;
        && (!BookFits(b) ==> r == Err(DataTooLong))
        && (BookFits(b) && TitleTaken(old(bookRepo.rows), b.title) ==> r == Err(BookTitleExists))
        && (BookFits(b) && !TitleTaken(old(bookRepo.rows), b.title) ==>
              && r == Ok(b.(id := old(bookRepo.nextId)))
              && old(bookRepo.nextId) !in old(bookRepo.rows)
              && bookRepo.rows == old(bookRepo.rows)[old(bookRepo.nextId) := r.value])
    {
      var prepared := Prepared(data);
      if prepared.Err? {
        return prepared;
      }
      r := bookRepo.Create(prepared.value);
    }

    /** `get_all_with_pagination`: one page of books in id order. */
    function GetAllWithPagination(limit: nat, offset: nat): (r: seq<Book>)
      reads bookRepo, authorService.repo, genreService.repo
      requires Valid()
      ensures r == bookRepo.GetAllWithPagination(limit, offset)
      ensures |r| == if offset >= |bookRepo.rows| then 0 else if |bookRepo.rows| - offset < limit then |bookRepo.rows| - offset else limit
      ensures forall i :: 0 <= i < |r| ==> r[i].id in bookRepo.rows && bookRepo.rows[r[i].id] == r[i]
      ensures forall i :: 0 <= i < |r| ==> Store.Rank(bookRepo.rows.Keys, r[i].id) == offset + i
    {
      bookRepo.GetAllWithPagination(limit, offset)
    }

    /** `get_by_id_or_raise`: the stored book, or BookNotFound when the id is absent. */
    function GetByIdOrRaise(id: int): (r: Result<Book>)
      reads bookRepo, authorService.repo, genreService.repo
      requires Valid()
      ensures r.Ok? <==> id in bookRepo.rows
      ensures r.Ok? ==> r.value == bookRepo.rows[id] && r.value.id == id
      ensures r.Err? ==> r.error == BookNotFound
    {
      var book := bookRepo.GetByIdOrNone(id);
      if book.None? then Err(BookNotFound) else Ok(book.value)
    }

    /**
     * The relinking step of `update`: a non-empty `author_ids` replaces the
     * book's authors by the resolved ones (AuthorNotFound when none is
     * stored), then a non-empty `genre_ids` does the same for genres; None
     * and an empty list leave the links alone.
     */
    function Relinked(b: Book, data: BookUpdate): (r: Result<Book>)
      reads authorService.repo, genreService.repo
      requires authorService.Valid() && genreService.Valid()
      ensures r.Ok? <==> && (Supplied(data.authorIds) ==> authorService.GetByIdsOrRaise(data.authorIds.value).Ok?)
                         && (Supplied(data.genreIds) ==> genreService.GetByIdsOrRaise(data.genreIds.value).Ok?)
      ensures (Supplied(data.authorIds) && authorService.GetByIdsOrRaise(data.authorIds.value).Err?)
              ==> r == Err(AuthorNotFound)
      ensures ((!Supplied(data.authorIds) || authorService.GetByIdsOrRaise(data.authorIds.value).Ok?)
               && Supplied(data.genreIds) && genreService.GetByIdsOrRaise(data.genreIds.value).Err?)
              ==> r == Err(GenreNotFound)
      ensures r.Ok? ==> r.value == b.(authors := r.value.authors, genres := r.value.genres)
      ensures r.Ok? && !Supplied(data.authorIds) ==> r.value.authors == b.authors
      ensures r.Ok? && Supplied(data.authorIds) ==>
                r.value.authors == authorService.GetByIdsOrRaise(data.authorIds.value).value
      ensures r.Ok? && !Supplied(data.genreIds) ==> r.value.genres == b.genres
      ensures r.Ok? && Supplied(data.genreIds) ==>
                r.value.genres == genreService.GetByIdsOrRaise(data.genreIds.value).value
    {
      var authors := if Supplied(data.authorIds) then authorService.GetByIdsOrRaise(data.authorIds.value) else Ok(b.authors);
      var genres := if Supplied(data.genreIds) then genreService.GetByIdsOrRaise(data.genreIds.value) else Ok(b.genres);
      if authors.Err? then Err(authors.error)
      else if genres.Err? then Err(genres.error)
      else Ok(b.(authors := authors.value, genres := genres.value))
    }

    /**
     * `update`: fetch or BookNotFound, relink, overwrite the supplied
     * non-None scalar fields, commit. Only the row with that id can change,
     * its id never does, and every error leaves the table as it was.
     */
    method Update(id: int, data: BookUpdate) returns (r: Result<Book>)
      requires Valid()
      modifies bookRepo
      ensures Valid()
      ensures id !in old(bookRepo.rows) ==> r == Err(BookNotFound)
      ensures r.Err? ==> bookRepo.rows == old(bookRepo.rows)
      ensures id in old(bookRepo.rows) ==>
        var linked := Relinked(old(bookRepo.rows)[id], data);
        && (linked.Err? ==> r == linked)
        && (linked.Ok? ==>
              var p := Patched(linked.value, data);
              && (!BookFits(p) ==> r == Err(DataTooLong))
              && (BookFits(p) && TitleTakenByOther(old(bookRepo.rows), p.title, id) ==> r == Err(Integrity))
              && (BookFits(p) && !TitleTakenByOther(old(bookRepo.rows), p.title, id) ==>
                    r == Ok(p) && bookRepo.rows == old(bookRepo.rows)[id := p]))
    {
      var found := GetByIdOrRaise(id);
      if found.Err? {
        return Err(found.error);
      }
      var book := found.value;
      if Supplied(data.authorIds) {
        var authors := authorService.GetByIdsOrRaise(data.authorIds.value);
        if authors.Err? {
          return Err(authors.error);
        }
        book := book.(authors := authors.value);
      }
      if Supplied(data.genreIds) {
        var genres := genreService.GetByIdsOrRaise(data.genreIds.value);
        if genres.Err? {
          return Err(genres.error);
        }
        book := book.(genres := genres.value);
      }
      book := ApplyUpdate(book, data);
      var committed := bookRepo.Update(book);
      if committed.Fail? {
        return Err(committed.error);
      }
      r := Ok(book);
    }

    /** `delete`: fetch or BookNotFound, then remove exactly that book. */
    method Delete(id: int) returns (r: Outcome)
      requires Valid()
      modifies bookRepo
      ensures Valid()
      ensures id in old(bookRepo.rows) ==> r == Pass && bookRepo.rows == old(bookRepo.rows) - {id}
      ensures id !in old(bookRepo.rows) ==> r == Fail(BookNotFound) && bookRepo.rows == old(bookRepo.rows)
    {
      var found := GetByIdOrRaise(id);
      if found.Err? {
        return Fail(found.error);
      }
      bookRepo.Delete(found.value);
      r := Pass;
    }
  }
}
