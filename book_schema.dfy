/**
 * Request validation of book bodies (src/schemas/book.py): the field
 * constraints of `BookBase`, `BookCreate` and `BookUpdate` and the
 * `convert_to_list` coercion of `author_ids` and `genre_ids`.
 */
module BookSchema {
  import opened Wrappers
  import opened Errors
  import opened Models

  const TITLE_MAX_LENGTH := 64
  const DESCRIPTION_MAX_LENGTH := 256

  /** A JSON value of a request body. */
  datatype Json = JNull | JInt(i: int) | JStr(s: string) | JList(items: seq<Json>)

  type JsonObject = map<string, Json>

  /** The parser that turns a date string into a date (pydantic's); it is a parameter here. */
  type DateParser = string -> Option<Date>

  /** A validated `BookCreate`. */
  datatype BookCreate = BookCreate(
    title: string,
    description: Option<string>,
    publishedAt: Date,
    availableCopies: Option<int>,
    authorIds: seq<int>,
    genreIds: seq<int>)

  /** A validated `BookUpdate`: None for a field that is absent or null. */
  datatype BookUpdate = BookUpdate(
    title: Option<string>,
    description: Option<string>,
    publishedAt: Option<Date>,
    availableCopies: Option<int>,
    authorIds: Option<seq<int>>,
    genreIds: Option<seq<int>>)

  /** The outcome of validating one field. */
  datatype Checked<T> = Good(value: T) | Bad(error: FieldError)

  const MISSING := "Field required"
  const NOT_A_STRING := "Input should be a valid string"
  const NOT_AN_INTEGER := "Input should be a valid integer"
  const NOT_A_LIST := "Input should be a valid list"
  const NOT_A_DATE := "Input should be a valid date"

  function TooLong(maxLength: nat): string {
    if maxLength == TITLE_MAX_LENGTH then "String should have at most 64 characters"
    else "String should have at most 256 characters"
  }

  /** `convert_to_list`, run before `list[int]` validation: a bare int n becomes [n]; anything else passes through. */
  function ConvertToList(value: Json): (r: Json)
    ensures value.JInt? ==> r == JList([value])
    ensures !value.JInt? ==> r == value
  {
    if value.JInt? then JList([value]) else value
  }

  /** Running the coercion twice is running it once: its output is never a bare int. */
  lemma ConvertToListIdempotent(value: Json)
    ensures ConvertToList(ConvertToList(value)) == ConvertToList(value)
  {
  }

  /** The integers of `items`, when every item is an integer. */
  function IntItems(items: seq<Json>): (r: Option<seq<int>>)
    ensures r.Some? <==> forall i :: 0 <= i < |items| ==> items[i].JInt?
    ensures r.Some? ==> |r.value| == |items| && forall i :: 0 <= i < |items| ==> items[i] == JInt(r.value[i])
  {
    if items == [] then Some([])
    else if !items[0].JInt? then None
    else
      var rest := IntItems(items[1..]);
      if rest.None? then
        assert !forall i :: 1 <= i < |items| ==> items[i].JInt? by {
          var j :| 0 <= j < |items[1..]| && !items[1..][j].JInt?;
          assert !items[j + 1].JInt?;
        }
        None
      else
        Some([items[0].i] + rest.value)
  }

  /** `list[int]` validation of one value. */
  function AsIntList(key: string, value: Json): (r: Checked<seq<int>>)
    ensures r.Good? <==> value.JList? && forall i :: 0 <= i < |value.items| ==> value.items[i].JInt?
    ensures r.Good? ==> |r.value| == |value.items|
                        && forall i :: 0 <= i < |r.value| ==> value.items[i] == JInt(r.value[i])
    ensures r.Bad? ==> r.error.loc == key
  {
    if !value.JList? then Bad(FieldError(key, NOT_A_LIST))
    else
      var ints := IntItems(value.items);
      if ints.None? then Bad(FieldError(key, NOT_AN_INTEGER)) else Good(ints.value)
  }

  /** A required string field with a maximum length. */
  function RequiredString(body: JsonObject, key: string, maxLength: nat): (r: Checked<string>)
    ensures r.Good? <==> key in body && body[key].JStr? && |body[key].s| <= maxLength
    ensures r.Good? ==> r.value == body[key].s
    ensures r.Bad? ==> r.error.loc == key
  {
    if key !in body then Bad(FieldError(key, MISSING))
    else match body[key]
      case JStr(s) => if |s| <= maxLength then Good(s) else Bad(FieldError(key, TooLong(maxLength)))
      case _ => Bad(FieldError(key, NOT_A_STRING))
  }

  /** An optional string field (default None) with a maximum length. */
  function OptionalString(body: JsonObject, key: string, maxLength: nat): (r: Checked<Option<string>>)
    ensures r.Good? <==> key !in body || body[key].JNull? || (body[key].JStr? && |body[key].s| <= maxLength)
    ensures r.Good? && (key !in body || body[key].JNull?) ==> r.value == None
    ensures r.Good? && key in body && body[key].JStr? ==> r.value == Some(body[key].s)
    ensures r.Bad? ==> r.error.loc == key
  {
    if key !in body then Good(None)
    else match body[key]
      case JNull => Good(None)
      case JStr(s) => if |s| <= maxLength then Good(Some(s)) else Bad(FieldError(key, TooLong(maxLength)))
      case _ => Bad(FieldError(key, NOT_A_STRING))
  }

  /** An optional integer field with the given default for an absent key; null stays None. */
  function OptionalInt(body: JsonObject, key: string, default: Option<int>): (r: Checked<Option<int>>)
    ensures r.Good? <==> key !in body || body[key].JNull? || body[key].JInt?
    ensures r.Good? && key !in body ==> r.value == default
    ensures r.Good? && key in body && body[key].JNull? ==> r.value == None
    ensures r.Good? && key in body && body[key].JInt? ==> r.value == Some(body[key].i)
    ensures r.Bad? ==> r.error.loc == key
  {
    if key !in body then Good(default)
    else match body[key]
      case JNull => Good(None)
      case JInt(n) => Good(Some(n))
      case _ => Bad(FieldError(key, NOT_AN_INTEGER))
  }

  function RequiredDate(body: JsonObject, key: string, parseDate: DateParser): (r: Checked<Date>)
    ensures r.Good? <==> key in body && body[key].JStr? && parseDate(body[key].s).Some?
    ensures r.Good? ==> r.value == parseDate(body[key].s).value
    ensures r.Bad? ==> r.error.loc == key
  {
    if key !in body then Bad(FieldError(key, MISSING))
    else if body[key].JStr? && parseDate(body[key].s).Some? then Good(parseDate(body[key].s).value)
    else Bad(FieldError(key, NOT_A_DATE))
  }

  function OptionalDate(body: JsonObject, key: string, parseDate: DateParser): (r: Checked<Option<Date>>)
    ensures r.Good? <==> key !in body || body[key].JNull? || (body[key].JStr? && parseDate(body[key].s).Some?)
    ensures (key !in body || body[key].JNull?) ==> r == Good(None)
    ensures r.Good? && key in body && body[key].JStr? ==> r.value == parseDate(body[key].s)
    ensures r.Bad? ==> r.error.loc == key
  {
    if key !in body || body[key].JNull? then Good(None)
    else if body[key].JStr? && parseDate(body[key].s).Some? then Good(parseDate(body[key].s))
    else Bad(FieldError(key, NOT_A_DATE))
  }

  /** `author_ids` / `genre_ids` of `BookCreate`: required, coerced by `convert_to_list`, then `list[int]`. */
  function RequiredIdList(body: JsonObject, key: string): (r: Checked<seq<int>>)
    ensures key in body && body[key].JInt? ==> r == Good([body[key].i])
    ensures key in body && body[key].JList? ==> r == AsIntList(key, body[key])
    ensures key !in body ==> r.Bad?
    ensures key in body && !body[key].JInt? && !body[key].JList? ==> r.Bad?
    ensures r.Bad? ==> r.error.loc == key
  {
    if key !in body then Bad(FieldError(key, MISSING))
    else
      var listed := ConvertToList(body[key]);
      if body[key].JInt? then
        assert IntItems(listed.items) == Some([body[key].i]) by {
          assert listed.items[1..] == [];
          assert IntItems(listed.items[1..]) == Some([]);
          assert [listed.items[0].i] + [] == [body[key].i];
        }
        AsIntList(key, listed)
      else
        AsIntList(key, listed)
  }

  /** `author_ids` / `genre_ids` of `BookUpdate`: optional, and a bare int is NOT coerced here. */
  function OptionalIdList(body: JsonObject, key: string): (r: Checked<Option<seq<int>>>)
    ensures key in body && !body[key].JNull? && !body[key].JList? ==> r.Bad?
    ensures (key !in body || body[key].JNull?) ==> r == Good(None)
    ensures key in body && body[key].JList? && AsIntList(key, body[key]).Good? ==>
      r == Good(Some(AsIntList(key, body[key]).value))
    ensures r.Bad? ==> r.error.loc == key
  {
    if key !in body || body[key].JNull? then Good(None)
    else
      var ids := AsIntList(key, body[key]);
      if ids.Bad? then Bad(ids.error) else Good(Some(ids.value))
  }

  function ErrorsOf<T>(c: Checked<T>): (es: seq<FieldError>)
    ensures |es| == if c.Bad? then 1 else 0
    ensures c.Bad? ==> es[0] == c.error
  {
    if c.Bad? then [c.error] else []
  }

  /** Some error of `errors` is located at the field `loc`. */
  predicate Reported(errors: seq<FieldError>, loc: string) {
    exists i :: 0 <= i < |errors| && errors[i].loc == loc
  }

  /** A field is reported in a concatenation of errors exactly when it is reported in one of the parts. */
  lemma ReportedConcat(a: seq<FieldError>, b: seq<FieldError>, loc: string)
    ensures Reported(a + b, loc) <==> Reported(a, loc) || Reported(b, loc)
  {
    if Reported(a + b, loc) {
      var i :| 0 <= i < |a + b| && (a + b)[i].loc == loc;
      if i < |a| { assert a[i].loc == loc; } else { assert b[i - |a|].loc == loc; }
    }
    if Reported(a, loc) {
      var i :| 0 <= i < |a| && a[i].loc == loc;
      assert (a + b)[i].loc == loc;
    }
    if Reported(b, loc) {
      var i :| 0 <= i < |b| && b[i].loc == loc;
      assert (a + b)[|a| + i].loc == loc;
    }
  }

  /** The errors of several fields, one part per field, in order. */
  function Concat(parts: seq<seq<FieldError>>): (es: seq<FieldError>)
  {
    if parts == [] then [] else Concat(parts[..|parts| - 1]) + parts[|parts| - 1]
  }

  /**
   * When every error of a part sits at that part's field, a field is
   * reported in the whole exactly when some part for that field is non-empty.
   */
  lemma {:induction false} ReportedInParts(parts: seq<seq<FieldError>>, locs: seq<string>, loc: string)
    requires |parts| == |locs|
    requires forall p, i :: 0 <= p < |parts| && 0 <= i < |parts[p]| ==> parts[p][i].loc == locs[p]
    ensures Reported(Concat(parts), loc) <==> exists p :: 0 <= p < |parts| && parts[p] != [] && locs[p] == loc
    decreases |parts|
  {
    if parts != [] {
      var n := |parts| - 1;
      ReportedInParts(parts[..n], locs[..n], loc);
      ReportedConcat(Concat(parts[..n]), parts[n], loc);
      if Reported(parts[n], loc) {
        var i :| 0 <= i < |parts[n]| && parts[n][i].loc == loc;
        assert parts[n] != [] && locs[n] == loc;
      }
      if parts[n] != [] && locs[n] == loc {
        assert parts[n][0].loc == loc;
      }
      if exists p :: 0 <= p < n && parts[..n][p] != [] && locs[..n][p] == loc {
        var p :| 0 <= p < n && parts[..n][p] != [] && locs[..n][p] == loc;
        assert parts[p] != [] && locs[p] == loc;
      }
      if exists p :: 0 <= p < |parts| && parts[p] != [] && locs[p] == loc {
        var p :| 0 <= p < |parts| && parts[p] != [] && locs[p] == loc;
        if p < n {
          assert parts[..n][p] != [] && locs[..n][p] == loc;
        } else {
          assert parts[n][0].loc == loc;
        }
      }
    }
  }

  /** With pairwise different fields, a field is reported exactly when its own part is non-empty. */
  lemma ReportedAtOwnField(parts: seq<seq<FieldError>>, locs: seq<string>, j: int)
    requires |parts| == |locs| && 0 <= j < |locs|
    requires forall p, q :: 0 <= p < q < |locs| ==> locs[p] != locs[q]
    requires forall p, i :: 0 <= p < |parts| && 0 <= i < |parts[p]| ==> parts[p][i].loc == locs[p]
    ensures Reported(Concat(parts), locs[j]) <==> parts[j] != []
  {
    ReportedInParts(parts, locs, locs[j]);
    if exists p :: 0 <= p < |parts| && parts[p] != [] && locs[p] == locs[j] {
      var p :| 0 <= p < |parts| && parts[p] != [] && locs[p] == locs[j];
      assert p == j;
    }
  }

  lemma ConcatOfSix(parts: seq<seq<FieldError>>)
    requires |parts| == 6
    ensures Concat(parts) == parts[0] + parts[1] + parts[2] + parts[3] + parts[4] + parts[5]
  {
    assert parts[..1][..0] == [];
    assert Concat(parts[..1]) == parts[0];
    assert parts[..2][..1] == parts[..1];
    assert Concat(parts[..2]) == parts[0] + parts[1];
    assert parts[..3][..2] == parts[..2];
    assert Concat(parts[..3]) == parts[0] + parts[1] + parts[2];
    assert parts[..4][..3] == parts[..3];
    assert Concat(parts[..4]) == parts[0] + parts[1] + parts[2] + parts[3];
    assert parts[..5][..4] == parts[..4];
    assert Concat(parts[..5]) == parts[0] + parts[1] + parts[2] + parts[3] + parts[4];
    assert parts[..5] == parts[..|parts| - 1];
  }

  /** The fields of a book body, in declaration order. */
  const BOOK_FIELDS := ["title", "description", "published_at", "available_copies", "author_ids", "genre_ids"]

  /** Each field of a book body is reported exactly when its own check failed. */
  lemma ReportedPerField<A, B, C, D, E, F>(
    title: Checked<A>, description: Checked<B>, publishedAt: Checked<C>,
    copies: Checked<D>, authorIds: Checked<E>, genreIds: Checked<F>)
    requires title.Bad? ==> title.error.loc == "title"
    requires description.Bad? ==> description.error.loc == "description"
    requires publishedAt.Bad? ==> publishedAt.error.loc == "published_at"
    requires copies.Bad? ==> copies.error.loc == "available_copies"
    requires authorIds.Bad? ==> authorIds.error.loc == "author_ids"
    requires genreIds.Bad? ==> genreIds.error.loc == "genre_ids"
    ensures var errors := ErrorsOf(title) + ErrorsOf(description) + ErrorsOf(publishedAt)
                          + ErrorsOf(copies) + ErrorsOf(authorIds) + ErrorsOf(genreIds);
            && (Reported(errors, "title") <==> title.Bad?)
            && (Reported(errors, "description") <==> description.Bad?)
            && (Reported(errors, "published_at") <==> publishedAt.Bad?)
            && (Reported(errors, "available_copies") <==> copies.Bad?)
            && (Reported(errors, "author_ids") <==> authorIds.Bad?)
            && (Reported(errors, "genre_ids") <==> genreIds.Bad?)
  {
    var parts := [ErrorsOf(title), ErrorsOf(description), ErrorsOf(publishedAt),
                  ErrorsOf(copies), ErrorsOf(authorIds), ErrorsOf(genreIds)];
    ConcatOfSix(parts);
    assert forall p, i :: 0 <= p < |parts| && 0 <= i < |parts[p]| ==> parts[p][i].loc == BOOK_FIELDS[p];
    ReportedAtOwnField(parts, BOOK_FIELDS, 0);
    ReportedAtOwnField(parts, BOOK_FIELDS, 1);
    ReportedAtOwnField(parts, BOOK_FIELDS, 2);
    ReportedAtOwnField(parts, BOOK_FIELDS, 3);
    ReportedAtOwnField(parts, BOOK_FIELDS, 4);
    ReportedAtOwnField(parts, BOOK_FIELDS, 5);
  }

  /**
   * `BookCreate` validation: every field is checked and every failure is
   * reported, in declaration order; the body is accepted only when no field
   * fails.
   */
  function ValidateBookCreate(body: JsonObject, parseDate: DateParser): (r: Result<BookCreate>)
    ensures r.Ok? ==> |r.value.title| <= TITLE_MAX_LENGTH
    ensures r.Ok? ==> r.value.description.None? || |r.value.description.value| <= DESCRIPTION_MAX_LENGTH
    ensures r.Ok? <==> && RequiredString(body, "title", TITLE_MAX_LENGTH).Good?
                       && OptionalString(body, "description", DESCRIPTION_MAX_LENGTH).Good?
                       && RequiredDate(body, "published_at", parseDate).Good?
                       && OptionalInt(body, "available_copies", Some(0)).Good?
                       && RequiredIdList(body, "author_ids").Good?
                       && RequiredIdList(body, "genre_ids").Good?
    ensures r.Ok? ==> r.value.title == body["title"].s
    ensures r.Ok? && "available_copies" !in body ==> r.value.availableCopies == Some(0)
    ensures r.Ok? && "description" !in body ==> r.value.description == None
    ensures r.Ok? && body["author_ids"].JInt? ==> r.value.authorIds == [body["author_ids"].i]
    ensures r.Ok? && body["genre_ids"].JInt? ==> r.value.genreIds == [body["genre_ids"].i]
    ensures r.Ok? ==> r.value == BookCreate(
                          RequiredString(body, "title", TITLE_MAX_LENGTH).value,
                          OptionalString(body, "description", DESCRIPTION_MAX_LENGTH).value,
                          RequiredDate(body, "published_at", parseDate).value,
                          OptionalInt(body, "available_copies", Some(0)).value,
                          RequiredIdList(body, "author_ids").value,
                          RequiredIdList(body, "genre_ids").value)
    ensures r.Err? ==> r.error.RequestValidation? && 0 < |r.error.errors| <= 6
    ensures r.Err? ==> && (Reported(r.error.errors, "title") <==> RequiredString(body, "title", TITLE_MAX_LENGTH).Bad?)
                       && (Reported(r.error.errors, "description") <==> OptionalString(body, "description", DESCRIPTION_MAX_LENGTH).Bad?)
                       && (Reported(r.error.errors, "published_at") <==> RequiredDate(body, "published_at", parseDate).Bad?)
                       && (Reported(r.error.errors, "available_copies") <==> OptionalInt(body, "available_copies", Some(0)).Bad?)
                       && (Reported(r.error.errors, "author_ids") <==> RequiredIdList(body, "author_ids").Bad?)
                       && (Reported(r.error.errors, "genre_ids") <==> RequiredIdList(body, "genre_ids").Bad?)
  {
    var title := RequiredString(body, "title", TITLE_MAX_LENGTH);
    var description := OptionalString(body, "description", DESCRIPTION_MAX_LENGTH);
    var publishedAt := RequiredDate(body, "published_at", parseDate);
    var copies := OptionalInt(body, "available_copies", Some(0));
    var authorIds := RequiredIdList(body, "author_ids");
    var genreIds := RequiredIdList(body, "genre_ids");
    var errors := ErrorsOf(title) + ErrorsOf(description) + ErrorsOf(publishedAt)
                  + ErrorsOf(copies) + ErrorsOf(authorIds) + ErrorsOf(genreIds);
    ReportedPerField(title, description, publishedAt, copies, authorIds, genreIds);
    if errors == [] then
      Ok(BookCreate(title.value, description.value, publishedAt.value, copies.value,
                    authorIds.value, genreIds.value))
    else
      Err(RequestValidation(errors))
  }

  /** `BookUpdate` validation: every field optional with default None, with the same length limits. */
  function ValidateBookUpdate(body: JsonObject, parseDate: DateParser): (r: Result<BookUpdate>)
    ensures r.Ok? ==> r.value.title.None? || |r.value.title.value| <= TITLE_MAX_LENGTH
    ensures r.Ok? ==> r.value.description.None? || |r.value.description.value| <= DESCRIPTION_MAX_LENGTH
    ensures r.Ok? <==> && OptionalString(body, "title", TITLE_MAX_LENGTH).Good?
                       && OptionalString(body, "description", DESCRIPTION_MAX_LENGTH).Good?
                       && OptionalDate(body, "published_at", parseDate).Good?
                       && OptionalInt(body, "available_copies", None).Good?
                       && OptionalIdList(body, "author_ids").Good?
                       && OptionalIdList(body, "genre_ids").Good?
    ensures r.Ok? ==> r.value == BookUpdate(
                          OptionalString(body, "title", TITLE_MAX_LENGTH).value,
                          OptionalString(body, "description", DESCRIPTION_MAX_LENGTH).value,
                          OptionalDate(body, "published_at", parseDate).value,
                          OptionalInt(body, "available_copies", None).value,
                          OptionalIdList(body, "author_ids").value,
                          OptionalIdList(body, "genre_ids").value)
    ensures r.Err? ==> r.error.RequestValidation? && 0 < |r.error.errors| <= 6
    ensures r.Err? ==> && (Reported(r.error.errors, "title") <==> OptionalString(body, "title", TITLE_MAX_LENGTH).Bad?)
                       && (Reported(r.error.errors, "description") <==> OptionalString(body, "description", DESCRIPTION_MAX_LENGTH).Bad?)
                       && (Reported(r.error.errors, "published_at") <==> OptionalDate(body, "published_at", parseDate).Bad?)
                       && (Reported(r.error.errors, "available_copies") <==> OptionalInt(body, "available_copies", None).Bad?)
                       && (Reported(r.error.errors, "author_ids") <==> OptionalIdList(body, "author_ids").Bad?)
                       && (Reported(r.error.errors, "genre_ids") <==> OptionalIdList(body, "genre_ids").Bad?)
  {
    var title := OptionalString(body, "title", TITLE_MAX_LENGTH);
    var description := OptionalString(body, "description", DESCRIPTION_MAX_LENGTH);
    var publishedAt := OptionalDate(body, "published_at", parseDate);
    var copies := OptionalInt(body, "available_copies", None);
    var authorIds := OptionalIdList(body, "author_ids");
    var genreIds := OptionalIdList(body, "genre_ids");
    var errors := ErrorsOf(title) + ErrorsOf(description) + ErrorsOf(publishedAt)
                  + ErrorsOf(copies) + ErrorsOf(authorIds) + ErrorsOf(genreIds);
    ReportedPerField(title, description, publishedAt, copies, authorIds, genreIds);
    if errors == [] then
      Ok(BookUpdate(title.value, description.value, publishedAt.value, copies.value,
                    authorIds.value, genreIds.value))
    else
      Err(RequestValidation(errors))
  }

  const UPDATE_KEYS := {"title", "description", "published_at", "available_copies", "author_ids", "genre_ids"}

  /** In an update, an explicit null is read exactly like an absent field. */
  lemma NullIsLikeAbsent(body: JsonObject, key: string, parseDate: DateParser)
    requires key in UPDATE_KEYS
    ensures ValidateBookUpdate(body[key := JNull], parseDate) == ValidateBookUpdate(body - {key}, parseDate)
  {
    var nulled, dropped := body[key := JNull], body - {key};
    assert OptionalString(nulled, "title", TITLE_MAX_LENGTH) == OptionalString(dropped, "title", TITLE_MAX_LENGTH);
    assert OptionalString(nulled, "description", DESCRIPTION_MAX_LENGTH)
        == OptionalString(dropped, "description", DESCRIPTION_MAX_LENGTH);
    assert OptionalDate(nulled, "published_at", parseDate) == OptionalDate(dropped, "published_at", parseDate);
    assert OptionalInt(nulled, "available_copies", None) == OptionalInt(dropped, "available_copies", None);
    assert OptionalIdList(nulled, "author_ids") == OptionalIdList(dropped, "author_ids");
    assert OptionalIdList(nulled, "genre_ids") == OptionalIdList(dropped, "genre_ids");
  }

  /** An empty body is a valid update that supplies nothing. */
  lemma EmptyUpdateIsValid(parseDate: DateParser)
    ensures ValidateBookUpdate(map[], parseDate) == Ok(BookUpdate(None, None, None, None, None, None))
  {
  }

  /**
   * The body of test_create_book: bare ints for the id lists become
   * one-element lists, the description defaults to None and the copy count to 0.
   */
  lemma CreateBodyWithBareIds(title: string, date: string, day: Date, author: int, genre: int, parseDate: DateParser)
    requires |title| <= TITLE_MAX_LENGTH && parseDate(date) == Some(day)
    ensures ValidateBookCreate(
              map["title" := JStr(title), "published_at" := JStr(date),
                  "author_ids" := JInt(author), "genre_ids" := JInt(genre)], parseDate)
            == Ok(BookCreate(title, None, day, Some(0), [author], [genre]))
  {
    var body := map["title" := JStr(title), "published_at" := JStr(date),
                    "author_ids" := JInt(author), "genre_ids" := JInt(genre)];
  }

  /**
   * The body of test_create_book_invalid_data: no title, an unparsable
   * date and strings for both id lists give exactly four errors.
   */
  lemma InvalidCreateBodyHasFourErrors(parseDate: DateParser)
    requires parseDate("invalid_date").None?
    ensures var r := ValidateBookCreate(
              map["published_at" := JStr("invalid_date"), "author_ids" := JStr("invalid_id"),
                  "genre_ids" := JStr("invalid_id")], parseDate);
            r.Err? && |r.error.errors| == 4
  {
    var body := map["published_at" := JStr("invalid_date"), "author_ids" := JStr("invalid_id"),
                    "genre_ids" := JStr("invalid_id")];
    assert "title" !in body && "description" !in body && "available_copies" !in body;
  }
}
