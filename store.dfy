/**
 * Query semantics shared by the repositories: the `IN (...)` id filter, the
 * row order of a listing and `LIMIT`/`OFFSET`.
 */
module Store {

  predicate NoDuplicates<T(==)>(s: seq<T>) {
    forall i, j :: 0 <= i < j < |s| ==> s[i] != s[j]
  }

  predicate StrictlyIncreasing(s: seq<int>) {
    forall i, j :: 0 <= i < j < |s| ==> s[i] < s[j]
  }

  /**
   * The stored keys that `WHERE id IN (ids)` selects: every stored key named
   * in `ids`, each once however often it is named, in order of first mention.
   */
  function PresentIds(keys: set<int>, ids: seq<int>): (r: seq<int>)
    ensures forall k :: k in r <==> k in ids && k in keys
    ensures NoDuplicates(r)
  {
    if ids == [] then []
    else
      var rest := PresentIds(keys, ids[..|ids| - 1]);
      var k := ids[|ids| - 1];
      assert forall x :: x in ids <==> x in ids[..|ids| - 1] || x == k;
      if k in keys && k !in rest then rest + [k] else rest
  }

  /** The stored keys in `[lo, hi)`, in ascending order. */
  function KeysInRange(keys: set<int>, lo: int, hi: int): (r: seq<int>)
    ensures forall k :: k in r <==> k in keys && lo <= k < hi
    ensures StrictlyIncreasing(r)
    ensures forall i :: 0 <= i < |r| ==> lo <= r[i] < hi
    decreases hi - lo
  {
    if lo >= hi then []
    else if lo in keys then [lo] + KeysInRange(keys, lo + 1, hi)
    else KeysInRange(keys, lo + 1, hi)
  }

  /** How many keys lie below `k`: the position `k` takes in a listing ordered by key. */
  function Rank(keys: set<int>, k: int): nat {
    |set x | x in keys && x < k|
  }

  /** Adding a key above `k` leaves the rank of `k` alone. */
  lemma RankIgnoresLarger(rest: set<int>, top: int, k: int)
    requires k <= top
    ensures Rank(rest + {top}, k) == Rank(rest, k)
  {
    assert (set x | x in rest + {top} && x < k) == (set x | x in rest && x < k);
  }

  /** A key above every other key has all the others below it. */
  lemma RankOfTop(rest: set<int>, top: int)
    requires forall x :: x in rest ==> x < top
    ensures Rank(rest + {top}, top) == |rest|
  {
    assert (set x | x in rest + {top} && x < top) == rest;
  }

  /** An ascending sequence of exactly the keys lists each key at its rank, and lists them all. */
  lemma {:induction false} SortedListing(keys: set<int>, s: seq<int>)
    requires StrictlyIncreasing(s)
    requires forall k :: k in s <==> k in keys
    ensures |s| == |keys|
    ensures forall i :: 0 <= i < |s| ==> Rank(keys, s[i]) == i
    decreases |s|
  {
    if s == [] {
      forall k ensures k !in keys {
        assert k !in s;
      }
      assert keys == {};
    } else {
      var top := s[|s| - 1];
      var init := s[..|s| - 1];
      assert s == init + [top];
      var rest := keys - {top};
      assert Below: forall x :: x in init ==> x < top by {
        forall x | x in init ensures x < top {
          var j :| 0 <= j < |init| && init[j] == x;
          assert s[j] == x;
        }
      }
      assert forall k :: k in init <==> k in rest;
      SortedListing(rest, init);
      assert keys == rest + {top};
      forall i | 0 <= i < |s| ensures Rank(keys, s[i]) == i {
        if i < |s| - 1 {
          assert s[i] == init[i];
          RankIgnoresLarger(rest, top, s[i]);
        } else {
          RankOfTop(rest, top);
        }
      }
    }
  }

  /** The rows of `m` at `ks`, in that order. */
  function RowsAt<V>(m: map<int, V>, ks: seq<int>): (r: seq<V>)
    requires forall i :: 0 <= i < |ks| ==> ks[i] in m
    ensures |r| == |ks|
    ensures forall i :: 0 <= i < |ks| ==> r[i] == m[ks[i]]
  {
    if ks == [] then [] else [m[ks[0]]] + RowsAt(m, ks[1..])
  }

  /** `LIMIT limit OFFSET offset` applied to an ordered result. */
  function Page<T>(s: seq<T>, limit: nat, offset: nat): (r: seq<T>)
    ensures |r| <= limit
    ensures offset >= |s| ==> r == []
    ensures offset < |s| ==> |r| == if |s| - offset < limit then |s| - offset else limit
    ensures forall i :: 0 <= i < |r| ==> offset + i < |s| && r[i] == s[offset + i]
  {
    if offset >= |s| then []
    else if |s| - offset < limit then s[offset..]
    else s[offset..offset + limit]
  }

  /** Consecutive pages of one size cover the listing without gap or overlap. */
  lemma {:induction false} PagesTile<T>(s: seq<T>, limit: nat, offset: nat)
    ensures Page(s, limit, offset) + Page(s, limit, offset + limit)
         == Page(s, 2 * limit, offset)
  {
    var a, b, c := Page(s, limit, offset), Page(s, limit, offset + limit), Page(s, 2 * limit, offset);
    assert |a + b| == |c|;
    forall i | 0 <= i < |c| ensures (a + b)[i] == c[i] {
      if i < |a| { } else { assert b[i - |a|] == s[offset + limit + (i - |a|)]; }
    }
  }

  /**
   * The keys of one page of a listing ordered by key (`ORDER BY id LIMIT
   * limit OFFSET offset`) over keys that all lie in `[1, hi)`: as many as
   * remain after `offset`, at most `limit`, the i-th one having exactly
   * `offset + i` keys below it.
   */
  function PageKeys(keys: set<int>, hi: int, limit: nat, offset: nat): (r: seq<int>)
    requires forall k :: k in keys ==> 1 <= k < hi
    ensures |r| == if offset >= |keys| then 0 else if |keys| - offset < limit then |keys| - offset else limit
    ensures forall i :: 0 <= i < |r| ==> r[i] in keys && Rank(keys, r[i]) == offset + i
    ensures StrictlyIncreasing(r)
  {
    var ks := KeysInRange(keys, 1, hi);
    SortedListing(keys, ks);
    Page(ks, limit, offset)
  }

  /** Two consecutive pages of keys are the page of twice the size. */
  lemma PageKeysTile(keys: set<int>, hi: int, limit: nat, offset: nat)
    requires forall k :: k in keys ==> 1 <= k < hi
    ensures PageKeys(keys, hi, limit, offset) + PageKeys(keys, hi, limit, offset + limit)
         == PageKeys(keys, hi, 2 * limit, offset)
  {
    PagesTile(KeysInRange(keys, 1, hi), limit, offset);
  }

  lemma RowsAtConcat<V>(m: map<int, V>, a: seq<int>, b: seq<int>)
    requires forall i :: 0 <= i < |a| ==> a[i] in m
    requires forall i :: 0 <= i < |b| ==> b[i] in m
    ensures RowsAt(m, a + b) == RowsAt(m, a) + RowsAt(m, b)
  {
    var ab := a + b;
    assert forall i :: 0 <= i < |ab| ==> ab[i] in m by {
      forall i | 0 <= i < |ab| ensures ab[i] in m {
        if i >= |a| { assert ab[i] == b[i - |a|]; }
      }
    }
    var l, r := RowsAt(m, a + b), RowsAt(m, a) + RowsAt(m, b);
    forall i | 0 <= i < |l| ensures l[i] == r[i] {
      if i >= |a| { assert ab[i] == b[i - |a|]; }
    }
  }
}
