/** The genres table and its data access (src/db/repositories/genre.py). */
module GenreRepo {
  import opened Wrappers
  import opened Errors
  import opened Models
  import Store

  /** No two stored genres share a name (`Genre.name` is a unique column). */
  ghost predicate NamesUnique(rows: map<int, Genre>) {
    forall j, k :: j in rows && k in rows && rows[j].name == rows[k].name ==> j == k
  }

  predicate NameTaken(rows: map<int, Genre>, name: string) {
    exists k :: k in rows && rows[k].name == name
  }

  class GenreRepository {
    /** The rows of the table, by id. */
    var rows: map<int, Genre>
    /** The id the next insert receives. */
    var nextId: int

    ghost predicate Valid()
      reads this
    {
      && 1 <= nextId
      && (forall k :: k in rows ==> 1 <= k < nextId && rows[k].id == k)
      && NamesUnique(rows)
    }

    constructor ()
      ensures Valid() && rows == map[]
    {
      rows := map[];
      nextId := 1;
    }

    /**
     * `create`: insert and commit; a clash on the unique name rolls the
     * session back and becomes a 400 with this repository's own text.
     */
    method Create(genre: Genre) returns (r: Result<Genre>)
      requires Valid()
      modifies this
      ensures Valid()
      ensures !GenreFits(genre) ==> r == Err(DataTooLong)
      ensures GenreFits(genre) && NameTaken(old(rows), genre.name) ==> r == Err(GenreNameExists)
      ensures r.Err? ==> rows == old(rows) && nextId == old(nextId)
      ensures GenreFits(genre) && !NameTaken(old(rows), genre.name) ==>
        && r == Ok(genre.(id := old(nextId)))
        && old(nextId) !in old(rows)
        && rows == old(rows)[old(nextId) := r.value]
        && nextId == old(nextId) + 1
    {
      if !GenreFits(genre) {
        return Err(DataTooLong);
      }
      if NameTaken(rows, genre.name) {
        return Err(GenreNameExists);
      }
      var saved := genre.(id := nextId);
      rows := rows[nextId := saved];
      nextId := nextId + 1;
      r := Ok(saved);
    }

    /**
     * `get_by_ids_or_none`: the genres whose id is in `ids`, each once, or
     * None when that selection is empty.
     */
    function GetByIdsOrNone(ids: seq<int>): (r: Option<seq<Genre>>)
      reads this
      requires Valid()
      ensures r.None? <==> forall k :: k in ids ==> k !in rows
      ensures r.Some? ==> |r.value| > 0
      ensures r.Some? ==> forall i :: 0 <= i < |r.value| ==>
        r.value[i].id in ids && r.value[i].id in rows && rows[r.value[i].id] == r.value[i]
      ensures r.Some? ==> forall k :: k in ids && k in rows ==> rows[k] in r.value
      ensures r.Some? ==> forall i, j :: 0 <= i < j < |r.value| ==> r.value[i].id != r.value[j].id
    {
      var ks := Store.PresentIds(rows.Keys, ids);
      var found := Store.RowsAt(rows, ks);
      assert forall i :: 0 <= i < |ks| ==> found[i].id == ks[i];
      assert forall k :: k in ids && k in rows ==> rows[k] in found by {
        forall k | k in ids && k in rows ensures rows[k] in found {
          var i :| 0 <= i < |ks| && ks[i] == k;
        }
      }
      if |found| > 0 then Some(found) else None
    }
  }
}
