/**
 * The authors table and its data access (src/db/repositories/author.py).
 * Only `create` is shown in the source; lookup, listing, update and delete
 * are given plain table semantics: read, replace, remove.
 */
module AuthorRepo {
  import opened Wrappers
  import opened Errors
  import opened Models
  import Store

  /** No two stored authors share a name (`Author.name` is a unique column). */
  ghost predicate NamesUnique(rows: map<int, Author>) {
    forall j, k :: j in rows && k in rows && rows[j].name == rows[k].name ==> j == k
  }

  predicate NameTaken(rows: map<int, Author>, name: string) {
    exists k :: k in rows && rows[k].name == name
  }

  /** Some row other than `id` already carries `name`. */
  predicate NameTakenByOther(rows: map<int, Author>, name: string, id: int) {
    exists k :: k in rows && k != id && rows[k].name == name
  }

  class AuthorRepository {
    var rows: map<int, Author>
    var nextId: int

    ghost predicate Valid()
      reads this
    {
      && 1 <= nextId
      && (forall k :: k in rows ==> 1 <= k < nextId && rows[k].id == k)
      && NamesUnique(rows)
    }

    constructor ()
      ensures Valid() && rows == map[]
    {
      rows := map[];
      nextId := 1;
    }

    /**
     * `create`: insert, commit and refresh; a clash on the unique name rolls
     * the session back and becomes a 400.
     */
    method Create(author: Author) returns (r: Result<Author>)
      requires Valid()
      modifies this
      ensures Valid()
      ensures !AuthorFits(author) ==> r == Err(DataTooLong)
      ensures AuthorFits(author) && NameTaken(old(rows), author.name) ==> r == Err(AuthorNameExists)
      ensures r.Err? ==> rows == old(rows) && nextId == old(nextId)
      ensures AuthorFits(author) && !NameTaken(old(rows), author.name) ==>
        && r == Ok(author.(id := old(nextId)))
        && old(nextId) !in old(rows)
        && rows == old(rows)[old(nextId) := r.value]
        && nextId == old(nextId) + 1
    {
      if !AuthorFits(author) {
        return Err(DataTooLong);
      }
      if NameTaken(rows, author.name) {
        return Err(AuthorNameExists);
      }
      var saved := author.(id := nextId);
      rows := rows[nextId := saved];
      nextId := nextId + 1;
      r := Ok(saved);
    }

    /** `get_by_id_or_none`: the row with that id, if any. */
    function GetByIdOrNone(id: int): (r: Option<Author>)
      reads this
      requires Valid()
      ensures r.Some? <==> id in rows
      ensures r.Some? ==> r.value == rows[id] && r.value.id == id
    {
      if id in rows then Some(rows[id]) else None
    }

    /** `get_by_ids_or_none`: as for genres, the `IN` selection or None when it is empty. */
    function GetByIdsOrNone(ids: seq<int>): (r: Option<seq<Author>>)
      reads this
      requires Valid()
      ensures r.None? <==> forall k :: k in ids ==> k !in rows
      ensures r.Some? ==> |r.value| > 0
      ensures r.Some? ==> forall i :: 0 <= i < |r.value| ==>
        r.value[i].id in ids && r.value[i].id in rows && rows[r.value[i].id] == r.value[i]
      ensures r.Some? ==> forall k :: k in ids && k in rows ==> rows[k] in r.value
      ensures r.Some? ==> forall i, j :: 0 <= i < j < |r.value| ==> r.value[i].id != r.value[j].id
    {
      var ks := Store.PresentIds(rows.Keys, ids);
      var found := Store.RowsAt(rows, ks);
      assert forall i :: 0 <= i < |ks| ==> found[i].id == ks[i];
      assert forall k :: k in ids && k in rows ==> rows[k] in found by {
        forall k | k in ids && k in rows ensures rows[k] in found {
          var i :| 0 <= i < |ks| && ks[i] == k;
        }
      }
      if |found| > 0 then Some(found) else None
    }

    /** `get_all_with_pagination`: one page of the table, in id order. */
    function GetAllWithPagination(limit: nat, offset: nat): (r: seq<Author>)
      reads this
      requires Valid()
      ensures |r| == if offset >= |rows| then 0 else if |rows| - offset < limit then |rows| - offset else limit
      ensures forall i :: 0 <= i < |r| ==> r[i].id in rows && rows[r[i].id] == r[i]
      ensures forall i :: 0 <= i < |r| ==> Store.Rank(rows.Keys, r[i].id) == offset + i
      ensures forall i, j :: 0 <= i < j < |r| ==> r[i].id < r[j].id
    {
      var ks := Store.PageKeys(rows.Keys, nextId, limit, offset);
      assert |rows.Keys| == |rows|;
      assert forall i :: 0 <= i < |ks| ==> rows[ks[i]].id == ks[i];
      Store.RowsAt(rows, ks)
    }

    /**
     * `update`: commit the changed row. A name that another row already
     * carries violates the unique column; nothing translates that error and
     * the commit changes nothing.
     */
    method Update(author: Author) returns (r: Outcome)
      requires Valid() && author.id in rows
      modifies this
      ensures Valid() && nextId == old(nextId)
      ensures !AuthorFits(author) ==> r == Fail(DataTooLong)
      ensures AuthorFits(author) && NameTakenByOther(old(rows), author.name, author.id) ==> r == Fail(Integrity)
      ensures r.Fail? ==> rows == old(rows)
      ensures AuthorFits(author) && !NameTakenByOther(old(rows), author.name, author.id) ==>
        r == Pass && rows == old(rows)[author.id := author]
    {
      if !AuthorFits(author) {
        return Fail(DataTooLong);
      }
      if NameTakenByOther(rows, author.name, author.id) {
        return Fail(Integrity);
      }
      rows := rows[author.id := author];
      r := Pass;
    }

    /** `delete`: remove the row. */
    method Delete(author: Author)
      requires Valid() && author.id in rows
      modifies this
      ensures Valid() && nextId == old(nextId)
      ensures rows == old(rows) - {author.id}
    {
      rows := rows - {author.id};
    }
  }
}
