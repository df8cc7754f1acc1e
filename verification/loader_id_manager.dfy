/**
 * LoaderIdManager.java: hands each database source the start of its own block of
 * MAX_IDS_PER_LOADER loader ids. The source keeps the counter in a static field; here it is the
 * field of one manager object that every source is given.
 */
module LoaderIds {
  const MAX_IDS_PER_LOADER := 1000

  /** The block starts handed out by `k` calls from a counter at 0: 0, 1000, 2000, ... */
  function Issued(k: nat): (starts: seq<int>)
    ensures |starts| == k
    ensures forall i :: 0 <= i < k ==> starts[i] == MAX_IDS_PER_LOADER * i
  {
    seq(k, i => MAX_IDS_PER_LOADER * i)
  }

  /** The id blocks `[start, start + MAX_IDS_PER_LOADER)` handed out are pairwise disjoint. */
  lemma IssuedDisjoint(k: nat, i: int, j: int, id: int)
    requires 0 <= i < j < k
    requires Issued(k)[i] <= id < Issued(k)[i] + MAX_IDS_PER_LOADER
    ensures !(Issued(k)[j] <= id < Issued(k)[j] + MAX_IDS_PER_LOADER)
  {
    assert Issued(k)[j] - Issued(k)[i] == MAX_IDS_PER_LOADER * (j - i) >= MAX_IDS_PER_LOADER;
  }

  /** Every block start is a multiple of MAX_IDS_PER_LOADER. */
  lemma IssuedMultiples(k: nat, i: int)
    requires 0 <= i < k
    ensures Issued(k)[i] % MAX_IDS_PER_LOADER == 0 && Issued(k)[i] >= 0
  {
    assert Issued(k)[i] == MAX_IDS_PER_LOADER * i;
  }

  class LoaderIdManager {
    var nextIdStart: int
    /** The block starts returned so far. */
    ghost var issued: seq<int>

    ghost predicate Valid()
      reads this
    {
      issued == Issued(|issued|) && nextIdStart == MAX_IDS_PER_LOADER * |issued|
    }

    constructor()
      ensures Valid() && nextIdStart == 0 && issued == []
    {
      nextIdStart := 0;
      issued := [];
    }

    /** getNextId: returns the counter and advances it by one block. */
    method GetNextId() returns (start: int)
      requires Valid()
      modifies this
      ensures start == old(nextIdStart) && nextIdStart == old(nextIdStart) + MAX_IDS_PER_LOADER
      ensures issued == old(issued) + [start] && Valid()
    {
      var returnValue := nextIdStart;
      nextIdStart := nextIdStart + MAX_IDS_PER_LOADER;
      issued := issued + [returnValue];
      assert issued == Issued(|issued|);
      return returnValue;
    }

    /** getMaxIdsPerLoader. */
    function GetMaxIdsPerLoader(): (n: int)
      ensures n == MAX_IDS_PER_LOADER
    {
      MAX_IDS_PER_LOADER
    }
  }
}
