/**
 * What DatabaseSource.java and BaseDatabaseSource.java share: the loader arguments, the URI a
 * loader reads, the cyclic loader-id allocator within a source's block, the id-to-listener
 * registry and the reading of a finished loader's rows.
 */
module Loaders {
  import opened Wrappers
  import opened LoaderIds

  const ITEM_ID_KEY := "itemId"

  /** A value stored in a Bundle: an int, or something else. */
  datatype Value = IntValue(i: int) | OtherValue

  /** A loader's arguments. */
  type Bundle = map<string, Value>

  /** Bundle.getInt: the int under `key`, 0 when there is none. */
  function GetInt(args: Bundle, key: string): (n: int)
    ensures key in args && args[key].IntValue? ==> n == args[key].i
    ensures !(key in args && args[key].IntValue?) ==> n == 0
  {
    if key in args && args[key].IntValue? then args[key].i else 0
  }

  /** The content URI a loader reads: all items, or the item with the given id. */
  datatype Uri = BaseUri | ItemUri(id: int)

  /** One emission on a listener: its results, then completion. */
  datatype Emission<S, T> = Emission(subject: S, results: seq<T>)

  // ---------------------------------------------------------------------------------------------
  // Loader ids

  /** The id after `id` in the block `[min, min + MAX_IDS_PER_LOADER)`: the next one, or `min` at the end. */
  function NextId(min: int, id: int): (r: int)
  {
    if id + 1 == min + MAX_IDS_PER_LOADER then min else id + 1
  }

  /** The id that `k` calls of getNextId leave in a source whose block starts at `min`. */
  function CycleId(min: int, k: nat): (id: int)
    ensures min <= id < min + MAX_IDS_PER_LOADER
  {
    min + k % MAX_IDS_PER_LOADER
  }

  /** One more call moves the cycle one step. */
  lemma CycleStep(min: int, k: nat)
    ensures NextId(min, CycleId(min, k)) == CycleId(min, k + 1)
  {
    if k % MAX_IDS_PER_LOADER == MAX_IDS_PER_LOADER - 1 {
      assert (k + 1) % MAX_IDS_PER_LOADER == 0;
    } else {
      assert (k + 1) % MAX_IDS_PER_LOADER == k % MAX_IDS_PER_LOADER + 1;
    }
  }

  /** The ids repeat after MAX_IDS_PER_LOADER calls, and not before. */
  lemma CyclePeriod(min: int, i: nat, j: nat)
    requires i <= j
    ensures CycleId(min, i) == CycleId(min, j) <==> (j - i) % MAX_IDS_PER_LOADER == 0
  {
    var a, b := i % MAX_IDS_PER_LOADER, j % MAX_IDS_PER_LOADER;
    assert i == MAX_IDS_PER_LOADER * (i / MAX_IDS_PER_LOADER) + a;
    assert j == MAX_IDS_PER_LOADER * (j / MAX_IDS_PER_LOADER) + b;
    assert j - i == MAX_IDS_PER_LOADER * (j / MAX_IDS_PER_LOADER - i / MAX_IDS_PER_LOADER) + (b - a);
    if a == b {
      ModMultiple(j / MAX_IDS_PER_LOADER - i / MAX_IDS_PER_LOADER, 0);
    } else if b > a {
      ModMultiple(j / MAX_IDS_PER_LOADER - i / MAX_IDS_PER_LOADER, b - a);
    } else {
      ModMultiple(j / MAX_IDS_PER_LOADER - i / MAX_IDS_PER_LOADER - 1, MAX_IDS_PER_LOADER + b - a);
    }
  }

  lemma ModMultiple(q: int, r: int)
    requires 0 <= r < MAX_IDS_PER_LOADER
    ensures (MAX_IDS_PER_LOADER * q + r) % MAX_IDS_PER_LOADER == r
  {
  }

  // ---------------------------------------------------------------------------------------------
  // The registry

  /** Registering a fresh id and then removing it leaves the registry as it was. */
  lemma RegisterThenRemove<S>(listeners: map<int, S>, id: int, subject: S)
    requires id !in listeners
    ensures listeners[id := subject] - {id} == listeners
  {
    assert forall k :: k in listeners[id := subject] - {id} <==> k in listeners;
  }

  /** Removing an id touches no other entry. */
  lemma RemoveKeepsOthers<S>(listeners: map<int, S>, id: int, other: int)
    requires other != id
    ensures other in listeners - {id} <==> other in listeners
    ensures other in listeners ==> (listeners - {id})[other] == listeners[other]
  {
  }

  // ---------------------------------------------------------------------------------------------
  // Reading a cursor

  /**
   * The results of onLoadFinished: one object per cursor row, in row order, each made by
   * `create` (createDataObjectFromCursor).
   */
  method ReadRows<R, T>(rows: seq<R>, create: R -> T) returns (results: seq<T>)
    ensures |results| == |rows| && forall k :: 0 <= k < |rows| ==> results[k] == create(rows[k])
  {
    results := [];
    var k := 0;
    while k < |rows|
      invariant 0 <= k <= |rows| && |results| == k
      invariant forall m :: 0 <= m < k ==> results[m] == create(rows[m])
    {
      results := results + [create(rows[k])];
      k := k + 1;
    }
  }
}
