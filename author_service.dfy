/**
 * Author creation, lookup, partial update and deletion
 * (src/services/author.py), with the request shapes of src/schemas/author.py.
 */
module AuthorServices {
  import opened Wrappers
  import opened Errors
  import opened Models
  import opened AuthorRepo
  import Store

  datatype AuthorCreate = AuthorCreate(name: string, biography: Option<string>, birthDate: Date)

  /** `AuthorUpdate`: every field optional; None stands for both "absent" and an explicit null. */
  datatype AuthorUpdate = AuthorUpdate(name: Option<string>, biography: Option<string>, birthDate: Option<Date>)

  /** One `(key, value)` item of the dumped update. */
  datatype AuthorField = NameField(name: string) | BiographyField(biography: string) | BirthDateField(birthDate: Date)

  /** `model_dump(exclude_none=True, exclude_unset=True)`: the supplied non-None fields, in declaration order. */
  function Dump(u: AuthorUpdate): seq<AuthorField>
  {
    (if u.name.Some? then [NameField(u.name.value)] else [])
    + (if u.biography.Some? then [BiographyField(u.biography.value)] else [])
    + (if u.birthDate.Some? then [BirthDateField(u.birthDate.value)] else [])
  }

  /** `setattr(author, key, value)`. */
  function SetAttr(a: Author, f: AuthorField): Author {
    match f
    case NameField(n) => a.(name := n)
    case BiographyField(b) => a.(biography := Some(b))
    case BirthDateField(d) => a.(birthDate := d)
  }

  /** The `setattr` calls of `fields`, made in order. */
  function SetAll(a: Author, fields: seq<AuthorField>): Author {
    if fields == [] then a else SetAttr(SetAll(a, fields[..|fields| - 1]), fields[|fields| - 1])
  }

  /**
   * What a partial update means: each field the update supplies with a
   * value replaces the stored one, and every other field, the id included,
   * is kept.
   */
  function Patched(a: Author, u: AuthorUpdate): (p: Author)
    ensures p.id == a.id
  {
    Author(a.id,
           if u.name.Some? then u.name.value else a.name,
           if u.biography.Some? then u.biography else a.biography,
           if u.birthDate.Some? then u.birthDate.value else a.birthDate)
  }

  lemma {:induction false} SetAllAppend(a: Author, xs: seq<AuthorField>, ys: seq<AuthorField>)
    ensures SetAll(a, xs + ys) == SetAll(SetAll(a, xs), ys)
    decreases |ys|
  {
    if ys == [] {
      assert xs + ys == xs;
    } else {
      var ys' := ys[..|ys| - 1];
      assert (xs + ys)[..|xs + ys| - 1] == xs + ys';
      SetAllAppend(a, xs, ys');
    }
  }

  /** Setting the dumped fields one by one is the partial update. */
  lemma DumpThenSetAllIsPatched(a: Author, u: AuthorUpdate)
    ensures SetAll(a, Dump(u)) == Patched(a, u)
  {
    var n := if u.name.Some? then [NameField(u.name.value)] else [];
    var b := if u.biography.Some? then [BiographyField(u.biography.value)] else [];
    var d := if u.birthDate.Some? then [BirthDateField(u.birthDate.value)] else [];
    SetAllAppend(a, n + b, d);
    SetAllAppend(a, n, b);
    assert SetAll(a, n) == if u.name.Some? then a.(name := u.name.value) else a by {
      if u.name.Some? { assert n[..0] == []; }
    }
    var an := SetAll(a, n);
    assert SetAll(an, b) == if u.biography.Some? then an.(biography := u.biography) else an by {
      if u.biography.Some? { assert b[..0] == []; }
    }
    var anb := SetAll(an, b);
    assert SetAll(anb, d) == if u.birthDate.Some? then anb.(birthDate := u.birthDate.value) else anb by {
      if u.birthDate.Some? { assert d[..0] == []; }
    }
  }

  /** The `for key, value in ...: setattr(author, key, value)` loop of `update`. */
  method ApplyUpdate(a: Author, u: AuthorUpdate) returns (p: Author)
    ensures p == Patched(a, u)
  {
    var fields := Dump(u);
    p := a;
    for i := 0 to |fields|
      invariant p == SetAll(a, fields[..i])
    {
      assert fields[..i + 1][..i] == fields[..i];
      p := SetAttr(p, fields[i]);
    }
    assert fields[..|fields|] == fields;
    DumpThenSetAllIsPatched(a, u);
  }

  /** An update that supplies nothing changes nothing, and applying an update twice is applying it once. */
  lemma PatchedEmptyAndIdempotent(a: Author, u: AuthorUpdate)
    ensures Patched(a, AuthorUpdate(None, None, None)) == a
    ensures Patched(Patched(a, u), u) == Patched(a, u)
  {
  }

  class AuthorService {
    const repo: AuthorRepository

    ghost predicate Valid()
      reads repo
    {
      repo.Valid()
    }

    constructor (repo: AuthorRepository)
      ensures this.repo == repo
    {
      this.repo := repo;
    }

    /** `create`: store an author with exactly the given name, biography and birth date. */
    method Create(data: AuthorCreate) returns (r: Result<Author>)
      requires Valid()
      modifies repo
      ensures Valid()
      ensures r.Ok? ==> (r.value.name == data.name && r.value.biography == data.biography
                         && r.value.birthDate == data.birthDate
                         && r.value.id !in old(repo.rows)
                         && repo.rows == old(repo.rows)[r.value.id := r.value])
      ensures r.Err? ==> repo.rows == old(repo.rows)
      ensures r.Ok? <==> AuthorFits(Author(UNSAVED, data.name, data.biography, data.birthDate))
                         && !NameTaken(old(repo.rows), data.name)
      ensures (AuthorFits(Author(UNSAVED, data.name, data.biography, data.birthDate))
               && NameTaken(old(repo.rows), data.name)) ==> r == Err(AuthorNameExists)
    {
      var author := Author(UNSAVED, data.name, data.biography, data.birthDate);
      r := repo.Create(author);
    }

    /** `get_all_with_pagination`: one page of authors in id order. */
    function GetAllWithPagination(limit: nat, offset: nat): (r: seq<Author>)
      reads repo
      requires Valid()
      ensures r == repo.GetAllWithPagination(limit, offset)
      ensures |r| == if offset >= |repo.rows| then 0 else if |repo.rows| - offset < limit then |repo.rows| - offset else limit
      ensures forall i :: 0 <= i < |r| ==> r[i].id in repo.rows && repo.rows[r[i].id] == r[i]
      ensures forall i :: 0 <= i < |r| ==> Store.Rank(repo.rows.Keys, r[i].id) == offset + i
    {
      repo.GetAllWithPagination(limit, offset)
    }

    /** `get_by_id_or_raise`: the stored author, or AuthorNotFound when the id is absent. */
    function GetByIdOrRaise(id: int): (r: Result<Author>)
      reads repo
      requires Valid()
      ensures r.Ok? <==> id in repo.rows
      ensures r.Ok? ==> r.value == repo.rows[id] && r.value.id == id
      ensures r.Err? ==> r.error == AuthorNotFound
    {
      var author := repo.GetByIdOrNone(id);
      if author.None? then Err(AuthorNotFound) else Ok(author.value)
    }

    /**
     * `get_by_ids_or_raise`: AuthorNotFound exactly when the repository
     * finds nothing, which is when none of the ids is stored; otherwise the
     * repository's result as it is.
     */
    function GetByIdsOrRaise(ids: seq<int>): (r: Result<seq<Author>>)
      reads repo
      requires Valid()
      ensures r.Err? <==> repo.GetByIdsOrNone(ids).None?
      ensures r.Err? <==> forall k :: k in ids ==> k !in repo.rows
      ensures r.Err? ==> r.error == AuthorNotFound
      ensures r.Ok? ==> r.value == repo.GetByIdsOrNone(ids).value
    {
      var authors := repo.GetByIdsOrNone(ids);
      if authors.None? then Err(AuthorNotFound) else Ok(authors.value)
    }

    /**
     * `update`: fetch or AuthorNotFound, overwrite the supplied non-None
     * fields, commit. Every error leaves the table as it was.
     */
    method Update(id: int, data: AuthorUpdate) returns (r: Result<Author>)
      requires Valid()
      modifies repo
      ensures Valid()
      ensures id !in old(repo.rows) ==> r == Err(AuthorNotFound)
      ensures r.Err? ==> repo.rows == old(repo.rows)
      ensures id in old(repo.rows) ==>
        var p := Patched(old(repo.rows)[id], data);
        && (!AuthorFits(p) ==> r == Err(DataTooLong))
        && (AuthorFits(p) && NameTakenByOther(old(repo.rows), p.name, id) ==> r == Err(Integrity))
        && (AuthorFits(p) && !NameTakenByOther(old(repo.rows), p.name, id) ==>
              r == Ok(p) && repo.rows == old(repo.rows)[id := p])
    {
      var found := GetByIdOrRaise(id);
      if found.Err? {
        return Err(found.error);
      }
      var author := ApplyUpdate(found.value, data);
      var committed := repo.Update(author);
      if committed.Fail? {
        return Err(committed.error);
      }
      r := Ok(author);
    }

    /** `delete`: fetch or AuthorNotFound, then remove exactly that author. */
    method Delete(id: int) returns (r: Outcome)
      requires Valid()
      modifies repo
      ensures Valid()
      ensures id in old(repo.rows) ==> r == Pass && repo.rows == old(repo.rows) - {id}
      ensures id !in old(repo.rows) ==> r == Fail(AuthorNotFound) && repo.rows == old(repo.rows)
    {
      var found := GetByIdOrRaise(id);
      if found.Err? {
        return Fail(found.error);
      }
      repo.Delete(found.value);
      r := Pass;
    }
  }
}
