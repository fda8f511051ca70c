/** Genre creation and batch lookup (src/services/genre.py). */
module GenreServices {
  import opened Wrappers
  import opened Errors
  import opened Models
  import opened GenreRepo

  class GenreService {
    const repo: GenreRepository

    ghost predicate Valid()
      reads repo
    {
      repo.Valid()
    }

    constructor (repo: GenreRepository)
      ensures this.repo == repo
    {
      this.repo := repo;
    }

    /** `create`: store a genre carrying the given name. */
    method Create(name: string) returns (r: Result<Genre>)
      requires Valid()
      modifies repo
      ensures Valid()
      ensures r.Ok? <==> |name| <= GENRE_NAME_WIDTH && !NameTaken(old(repo.rows), name)
      ensures r.Ok? ==> (r.value.name == name && r.value.id !in old(repo.rows)
                         && repo.rows == old(repo.rows)[r.value.id := r.value])
      ensures r.Err? ==> repo.rows == old(repo.rows)
      ensures |name| <= GENRE_NAME_WIDTH && NameTaken(old(repo.rows), name) ==> r == Err(GenreNameExists)
    {
      r := repo.Create(Genre(UNSAVED, name));
    }

    /**
     * `get_by_ids_or_raise`: GenreNotFound exactly when the repository
     * finds nothing, which is when none of the ids is stored; a partial
     * match is returned as it is.
     */
    function GetByIdsOrRaise(ids: seq<int>): (r: Result<seq<Genre>>)
      reads repo
      requires Valid()
      ensures r.Err? <==> repo.GetByIdsOrNone(ids).None?
      ensures r.Err? <==> forall k :: k in ids ==> k !in repo.rows
      ensures r.Err? ==> r.error == GenreNotFound
      ensures r.Ok? ==> r.value == repo.GetByIdsOrNone(ids).value
    {
      var genres := repo.GetByIdsOrNone(ids);
      if genres.None? then Err(GenreNotFound) else Ok(genres.value)
    }
  }
}
