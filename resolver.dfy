/**
 * Resolution of a requested id list against one table: the query fetches the
 * rows whose id occurs in the list, and the request is accepted only when the
 * list's length equals the number of rows found.
 */
module Resolver {
  import opened Wrappers

  /** The distinct ids of a list. */
  function Elements(ids: seq<int>): set<int> {
    set i | i in ids
  }

  /** No id occurs twice in the list. */
  predicate Distinct(ids: seq<int>) {
    forall i, j | 0 <= i < j < |ids| :: ids[i] != ids[j]
  }

  /** The ids of the rows a `Where(row => ids.Contains(row.Id))` query returns. */
  function Found(keys: set<int>, ids: seq<int>): set<int> {
    set i | i in ids && i in keys
  }

  /** The rows found, or None when the count check rejects the request. */
  function Resolve(keys: set<int>, ids: seq<int>): Option<set<int>> {
    var found := Found(keys, ids);
    if |ids| != |found| then None else Some(found)
  }

  /** A non-empty list is distinct iff its head is not repeated and its tail is distinct. */
  lemma DistinctCons(ids: seq<int>)
    requires ids != []
    ensures Distinct(ids) <==> ids[0] !in ids[1..] && Distinct(ids[1..])
  {
  }

  /** A list has at most as many distinct ids as entries, exactly as many iff it is distinct. */
  lemma {:induction false} ElementsCard(ids: seq<int>)
    ensures |Elements(ids)| <= |ids|
    ensures |Elements(ids)| == |ids| <==> Distinct(ids)
  {
    if ids != [] {
      var rest := ids[1..];
      ElementsCard(rest);
      DistinctCons(ids);
      assert ids == [ids[0]] + rest;
      assert Elements(ids) == {ids[0]} + Elements(rest);
      if ids[0] in rest {
        assert Elements(ids) == Elements(rest);
      } else {
        assert ids[0] !in Elements(rest);
      }
    }
  }

  lemma SubsetCard(a: set<int>, b: set<int>)
    requires a <= b
    ensures |a| <= |b|
    ensures |a| == |b| ==> a == b
  {
    assert b == a + (b - a);
    assert a !! (b - a);
    if |a| == |b| {
      assert |b - a| == 0;
    }
  }

  /**
   * The count check accepts exactly the lists that are duplicate-free and
   * whose every id has a row; it then yields one row per requested id.
   */
  lemma ResolveSpec(keys: set<int>, ids: seq<int>)
    ensures Resolve(keys, ids).Some? <==> Distinct(ids) && Elements(ids) <= keys
    ensures Resolve(keys, ids).Some? ==>
      Resolve(keys, ids).value == Elements(ids) && |Resolve(keys, ids).value| == |ids|
  {
    var found := Found(keys, ids);
    assert found <= Elements(ids);
    ElementsCard(ids);
    SubsetCard(found, Elements(ids));
    if Distinct(ids) && Elements(ids) <= keys {
      assert found == Elements(ids);
    }
  }

  /** A list that names an id twice is rejected even when every id has a row. */
  lemma DuplicateRejected(keys: set<int>, ids: seq<int>, i: int, j: int)
    requires 0 <= i < j < |ids| && ids[i] == ids[j]
    ensures Resolve(keys, ids) == None
  {
    ResolveSpec(keys, ids);
  }

  /** An empty list always resolves, to no rows: it clears the relationship. */
  lemma EmptyResolves(keys: set<int>)
    ensures Resolve(keys, []) == Some({})
  {
  }
}
