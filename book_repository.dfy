/**
 * The books table and its data access (src/db/repositories/book.py). Only
 * `create` is shown in the source; lookup, listing, update and delete are
 * given plain table semantics: read, replace, remove.
 */
module BookRepo {
  import opened Wrappers
  import opened Errors
  import opened Models
  import Store

  /** No two stored books share a title (`Book.title` is a unique column). */
  ghost predicate TitlesUnique(rows: map<int, Book>) {
    forall j, k :: j in rows && k in rows && rows[j].title == rows[k].title ==> j == k
  }

  predicate TitleTaken(rows: map<int, Book>, title: string) {
    exists k :: k in rows && rows[k].title == title
  }

  /** Some row other than `id` already carries `title`. */
  predicate TitleTakenByOther(rows: map<int, Book>, title: string, id: int) {
    exists k :: k in rows && k != id && rows[k].title == title
  }

  class BookRepository {
    var rows: map<int, Book>
    var nextId: int

    ghost predicate Valid()
      reads this
    {
      && 1 <= nextId
      && (forall k :: k in rows ==> 1 <= k < nextId && rows[k].id == k)
      && TitlesUnique(rows)
    }

    constructor ()
      ensures Valid() && rows == map[]
    {
      rows := map[];
      nextId := 1;
    }

    /**
     * `create`: insert and commit, returning the argument itself (now with
     * its id); a clash on the unique title rolls the session back and
     * becomes a 400.
     */
    method Create(book: Book) returns (r: Result<Book>)
      requires Valid()
      modifies this
      ensures Valid()
      ensures !BookFits(book) ==> r == Err(DataTooLong)
      ensures BookFits(book) && TitleTaken(old(rows), book.title) ==> r == Err(BookTitleExists)
      ensures r.Err? ==> rows == old(rows) && nextId == old(nextId)
      ensures BookFits(book) && !TitleTaken(old(rows), book.title) ==>
        && r == Ok(book.(id := old(nextId)))
        && old(nextId) !in old(rows)
        && rows == old(rows)[old(nextId) := r.value]
        && nextId == old(nextId) + 1
    {
      if !BookFits(book) {
        return Err(DataTooLong);
      }
      if TitleTaken(rows, book.title) {
        return Err(BookTitleExists);
      }
      var saved := book.(id := nextId);
      rows := rows[nextId := saved];
      nextId := nextId + 1;
      r := Ok(saved);
    }

    /** `get_by_id_or_none`: the row with that id, if any. */
    function GetByIdOrNone(id: int): (r: Option<Book>)
      reads this
      requires Valid()
      ensures r.Some? <==> id in rows
      ensures r.Some? ==> r.value == rows[id] && r.value.id == id
    {
      if id in rows then Some(rows[id]) else None
    }

    /** `get_all_with_pagination`: one page of the table, in id order. */
    function GetAllWithPagination(limit: nat, offset: nat): (r: seq<Book>)
      reads this
      requires Valid()
      ensures |r| == if offset >= |rows| then 0 else if |rows| - offset < limit then |rows| - offset else limit
      ensures forall i :: 0 <= i < |r| ==> r[i].id in rows && rows[r[i].id] == r[i]
      ensures forall i :: 0 <= i < |r| ==> Store.Rank(rows.Keys, r[i].id) == offset + i
      ensures forall i, j :: 0 <= i < j < |r| ==> r[i].id < r[j].id
    {
      var ks := Store.PageKeys(rows.Keys, nextId, limit, offset);
      assert |rows.Keys| == |rows|;
      assert forall i :: 0 <= i < |ks| ==> rows[ks[i]].id == ks[i];
      Store.RowsAt(rows, ks)
    }

    /** Reading page after page gives the same books as one page of their combined size. */
    lemma ConsecutivePagesTile(limit: nat, offset: nat)
      requires Valid()
      ensures GetAllWithPagination(limit, offset) + GetAllWithPagination(limit, offset + limit)
           == GetAllWithPagination(2 * limit, offset)
    {
      Store.PageKeysTile(rows.Keys, nextId, limit, offset);
      Store.RowsAtConcat(rows, Store.PageKeys(rows.Keys, nextId, limit, offset),
                         Store.PageKeys(rows.Keys, nextId, limit, offset + limit));
    }

    /**
     * `update`: commit the changed row. A title that another row already
     * carries violates the unique column; nothing translates that error and
     * the commit changes nothing.
     */
    method Update(book: Book) returns (r: Outcome)
      requires Valid() && book.id in rows
      modifies this
      ensures Valid() && nextId == old(nextId)
      ensures !BookFits(book) ==> r == Fail(DataTooLong)
      ensures BookFits(book) && TitleTakenByOther(old(rows), book.title, book.id) ==> r == Fail(Integrity)
      ensures r.Fail? ==> rows == old(rows)
      ensures BookFits(book) && !TitleTakenByOther(old(rows), book.title, book.id) ==>
        r == Pass && rows == old(rows)[book.id := book]
    {
      if !BookFits(book) {
        return Fail(DataTooLong);
      }
      if TitleTakenByOther(rows, book.title, book.id) {
        return Fail(Integrity);
      }
      rows := rows[book.id := book];
      r := Pass;
    }

    /** `delete`: remove the row. */
    method Delete(book: Book)
      requires Valid() && book.id in rows
      modifies this
      ensures Valid() && nextId == old(nextId)
      ensures rows == old(rows) - {book.id}
    {
      rows := rows - {book.id};
    }
  }
}
