/**
 * BaseDatabaseSource.java: the simpler source of items read through Android loaders. It shares the
 * loader-id block, the listener registry and the reading of a finished loader with DatabaseSource,
 * but passes the sort order through as it is and builds no LIMIT/OFFSET clause.
 */
module BaseDbSource {
  import opened Wrappers
  import opened LoaderIds
  import opened Loaders
  import DbSource

  /**
   * The query onCreateLoader builds: the item URI when the arguments name an item, the base URI
   * otherwise (no arguments included), and always the sort order getSortOrderFromBundle gives.
   */
  function BaseLoaderQuery(args: Option<Bundle>, sortOrder: Option<string>): (q: (Uri, Option<string>))
    ensures q.0.ItemUri? <==> args.Some? && ITEM_ID_KEY in args.value
    ensures q.0.ItemUri? ==> q.0.id == GetInt(args.value, ITEM_ID_KEY)
    ensures q.1 == sortOrder
  {
    var uri := if args.Some? && ITEM_ID_KEY in args.value then ItemUri(GetInt(args.value, ITEM_ID_KEY)) else BaseUri;
    (uri, sortOrder)
  }

  /**
   * Both sources read the same URI for the same arguments; they differ only in the sort string,
   * which DatabaseSource drops for a single item and extends with the limit clause otherwise.
   */
  lemma SameUri(args: Option<Bundle>, sortOrder: Option<string>)
    ensures BaseLoaderQuery(args, sortOrder).0 == DbSource.LoaderQuery(args, sortOrder).0
    ensures args.Some? && ITEM_ID_KEY !in args.value && DbSource.ITEM_COUNT_KEY !in args.value &&
            DbSource.FIRST_ITEM_KEY !in args.value && (sortOrder.None? || sortOrder.value != "") ==>
              BaseLoaderQuery(args, sortOrder).1 == DbSource.LoaderQuery(args, sortOrder).1
  {
    if args.Some? && ITEM_ID_KEY !in args.value && DbSource.ITEM_COUNT_KEY !in args.value &&
       DbSource.FIRST_ITEM_KEY !in args.value && sortOrder.Some? && sortOrder.value != "" {
      assert sortOrder.value + "" + "" == sortOrder.value;
    }
  }

  /** A BaseDatabaseSource; `S` stands for the listeners' subjects and `T` for the items. */
  class BaseDatabaseSource<S, T> {
    const minLoaderId: int
    const maxLoaderId: int
    var nextId: int
    var listeners: map<int, S>
    /** The calls of getNextId so far. */
    ghost var calls: nat

    ghost predicate Valid()
      reads this
    {
      maxLoaderId == minLoaderId + MAX_IDS_PER_LOADER && nextId == CycleId(minLoaderId, calls) &&
      forall id :: id in listeners ==> minLoaderId <= id < maxLoaderId
    }

    /** Takes the next block of ids from the manager and starts at its first id. */
    constructor(ids: LoaderIdManager)
      requires ids.Valid()
      modifies ids
      ensures Valid() && nextId == minLoaderId && listeners == map[] && calls == 0
      ensures minLoaderId == old(ids.nextIdStart) && ids.Valid() && ids.issued == old(ids.issued) + [minLoaderId]
    {
      var start := ids.GetNextId();
      minLoaderId := start;
      maxLoaderId := start + ids.GetMaxIdsPerLoader();
      nextId := start;
      listeners := map[];
      calls := 0;
    }

    /** getNextId: the current id; the next one follows it and wraps to the first at the end of the block. */
    method GetNextId() returns (id: int)
      requires Valid()
      modifies this`nextId, this`calls
      ensures id == old(nextId) == CycleId(minLoaderId, old(calls)) && minLoaderId <= id < maxLoaderId
      ensures nextId == NextId(minLoaderId, id) && calls == old(calls) + 1 && Valid()
    {
      CycleStep(minLoaderId, calls);
      var nextValidId := nextId;
      nextId := nextId + 1;
      if nextId == maxLoaderId {
        nextId := minLoaderId;
      }
      calls := calls + 1;
      return nextValidId;
    }

    /** startLoader: registers `subject` under a new id and returns it as the loader's observable. */
    method StartLoader(subject: S) returns (id: int, observable: S)
      requires Valid()
      modifies this`nextId, this`calls, this`listeners
      ensures id == old(nextId) && nextId == NextId(minLoaderId, id) && calls == old(calls) + 1
      ensures listeners == old(listeners)[id := subject] && observable == subject && Valid()
    {
      id := GetNextId();
      listeners := listeners[id := subject];
      observable := subject;
    }

    /** cancelLoader: forgets the listener of loader `id`. */
    method CancelLoader(id: int)
      requires Valid()
      modifies this`listeners
      ensures listeners == old(listeners) - {id} && Valid()
    {
      listeners := listeners - {id};
    }

    /**
     * onLoadFinished: forgets the listener of the loader and, if there was one, emits to it one
     * item per row, in row order.
     */
    method OnLoadFinished<R>(loaderId: int, rows: seq<R>, create: R -> T) returns (emitted: Option<Emission<S, T>>)
      requires Valid()
      modifies this`listeners
      ensures listeners == old(listeners) - {loaderId} && Valid()
      ensures emitted.Some? <==> loaderId in old(listeners)
      ensures emitted.Some? ==>
                emitted.value.subject == old(listeners)[loaderId] && |emitted.value.results| == |rows| &&
                forall k :: 0 <= k < |rows| ==> emitted.value.results[k] == create(rows[k])
    {
      var subject := if loaderId in listeners then Some(listeners[loaderId]) else None;
      listeners := listeners - {loaderId};
      if subject.Some? {
        var results := ReadRows(rows, create);
        emitted := Some(Emission(subject.value, results));
      } else {
        emitted := None;
      }
    }
  }
}
