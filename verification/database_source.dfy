/**
 * DatabaseSource.java: a source of items read through Android loaders. It hands out loader ids
 * from its own block, keeps a listener per running loader, turns the loader arguments into the
 * `LIMIT`/`OFFSET` clause and the sort string of the query, and emits the rows of a finished
 * loader to its listener.
 */
module DbSource {
  import opened Wrappers
  import opened LoaderIds
  import opened Loaders

  const ITEM_COUNT_KEY := "itemCount"
  const FIRST_ITEM_KEY := "firstItem"

  // ---------------------------------------------------------------------------------------------
  // Decimal numerals (StringBuilder.append(int))

  predicate IsDigit(c: char)
  {
    '0' <= c <= '9'
  }

  predicate AllDigits(s: string)
  {
    forall k :: 0 <= k < |s| ==> IsDigit(s[k])
  }

  function Digit(d: int): (c: char)
    requires 0 <= d < 10
    ensures IsDigit(c) && c as int - '0' as int == d
  {
    ('0' as int + d) as char
  }

  /** The decimal digits of `n`, without leading zeros. */
  function NatToString(n: nat): (s: string)
    ensures |s| > 0 && AllDigits(s)
    ensures |s| > 1 ==> s[0] != '0'
  {
    if n < 10 then [Digit(n)]
    else
      var front := NatToString(n / 10);
      front + [Digit(n % 10)]
  }

  /** Integer.toString: a minus sign for negative numbers, then the digits. */
  function IntToString(n: int): (r: string)
  {
    if n < 0 then "-" + NatToString(-n) else NatToString(n)
  }

  function ParseNat(s: string): (r: nat)
    requires AllDigits(s)
  {
    if s == [] then 0
    else ParseNat(s[..|s| - 1]) * 10 + (s[|s| - 1] as int - '0' as int)
  }

  /**
   * Reads back a numeral as IntToString writes it: an optional minus sign, then decimal digits;
   * None on anything else.
   */
  function ParseInt(s: string): (r: Option<int>)
  {
    if |s| > 1 && s[0] == '-' && AllDigits(s[1..]) then Some(-(ParseNat(s[1..]) as int))
    else if |s| > 0 && AllDigits(s) then Some(ParseNat(s))
    else None
  }

  lemma {:induction false} ParseNatToString(n: nat)
    ensures ParseNat(NatToString(n)) == n
    decreases n
  {
    if n >= 10 {
      ParseNatToString(n / 10);
      var s := NatToString(n);
      assert s[..|s| - 1] == NatToString(n / 10);
    }
  }

  /** Every number written out reads back as itself. */
  lemma IntRoundTrip(n: int)
    ensures ParseInt(IntToString(n)) == Some(n)
    ensures Spaceless(IntToString(n))
  {
    NumeralSpaceless(n);
    if n < 0 {
      ParseNatToString(-n);
      var s := IntToString(n);
      assert s[1..] == NatToString(-n);
      assert !IsDigit('-');
    } else {
      ParseNatToString(n);
    }
  }

  lemma NumeralSpaceless(n: int)
    ensures Spaceless(IntToString(n))
  {
    if n < 0 {
      var s := IntToString(n);
      assert forall k :: 1 <= k < |s| ==> s[k] == NatToString(-n)[k - 1];
    }
  }

  // ---------------------------------------------------------------------------------------------
  // Words of a clause

  predicate Spaceless(s: string)
  {
    forall k :: 0 <= k < |s| ==> s[k] != ' '
  }

  lemma SpacelessJoin(a: string, b: string)
    requires Spaceless(a) && Spaceless(b)
    ensures Spaceless(a + b)
  {
    assert forall k :: 0 <= k < |a + b| ==> (a + b)[k] == if k < |a| then a[k] else b[k - |a|];
  }

  /** The index of the first space in `s`, or `|s|` when there is none. */
  function FirstSpace(s: string): (i: nat)
    ensures i <= |s| && (i < |s| ==> s[i] == ' ')
    ensures forall k :: 0 <= k < i ==> s[k] != ' '
  {
    if s == [] || s[0] == ' ' then 0
    else
      var i := FirstSpace(s[1..]) + 1;
      assert forall k :: 1 <= k < i ==> s[k] == s[1..][k - 1];
      i
  }

  /** The pieces of `s` between single spaces, as SQL reads the words of a clause. */
  function Words(s: string): (r: seq<string>)
    decreases |s|
  {
    var i := FirstSpace(s);
    if i == |s| then [s] else [s[..i]] + Words(s[i + 1..])
  }

  /** A space, or the end, with no space before it is where the first space is. */
  lemma {:induction false} FirstSpaceUnique(s: string, i: nat)
    requires i <= |s| && (i < |s| ==> s[i] == ' ')
    requires forall k :: 0 <= k < i ==> s[k] != ' '
    ensures FirstSpace(s) == i
    decreases i
  {
    if i > 0 {
      assert s[0] != ' ';
      assert forall k :: 0 <= k < i - 1 ==> s[1..][k] == s[k + 1];
      FirstSpaceUnique(s[1..], i - 1);
    }
  }

  /** A space appended after `x` is its first space only if `x` has none. */
  lemma FirstSpaceJoin(x: string, y: string)
    ensures FirstSpace(x + " " + y) == FirstSpace(x)
  {
    var s := x + " " + y;
    assert forall k :: 0 <= k < |x| ==> s[k] == x[k];
    FirstSpaceUnique(s, FirstSpace(x));
  }

  /** Joining two strings with a space keeps their words apart. */
  lemma {:induction false} WordsJoin(x: string, y: string)
    ensures Words(x + " " + y) == Words(x) + Words(y)
    decreases |x|
  {
    var s := x + " " + y;
    var i := FirstSpace(x);
    FirstSpaceJoin(x, y);
    assert s[..i] == x[..i];
    if i == |x| {
      assert s[i + 1..] == y;
      assert x[..i] == x;
    } else {
      assert s[i + 1..] == x[i + 1..] + " " + y;
      WordsJoin(x[i + 1..], y);
    }
  }

  lemma WordsSingle(x: string)
    requires Spaceless(x)
    ensures Words(x) == [x]
  {
    FirstSpaceUnique(x, |x|);
  }

  // ---------------------------------------------------------------------------------------------
  // The LIMIT/OFFSET clause

  /** The numbers a limit clause asks for: how many items, and from which one. */
  datatype Limit = Limit(count: Option<int>, offset: Option<int>)

  /** The limit the arguments ask for, from the keys they hold. */
  function RequestedLimit(args: Bundle): (r: Limit)
  {
    Limit(if ITEM_COUNT_KEY in args then Some(GetInt(args, ITEM_COUNT_KEY)) else None,
          if FIRST_ITEM_KEY in args then Some(GetInt(args, FIRST_ITEM_KEY)) else None)
  }

  /**
   * getLimitStringFromBundle: "LIMIT n" for an item count, "OFFSET m" for a first item, both
   * separated by a space, None when the arguments hold neither.
   */
  function LimitString(args: Bundle): (r: Option<string>)
  {
    var count := if ITEM_COUNT_KEY in args then "LIMIT " + IntToString(GetInt(args, ITEM_COUNT_KEY)) else "";
    var clause :=
      if FIRST_ITEM_KEY in args then
        count + (if |count| > 0 then " " else "") + "OFFSET " + IntToString(GetInt(args, FIRST_ITEM_KEY))
      else count;
    if |clause| > 0 then Some(clause) else None
  }

  /** Reads the words of a limit clause back: "LIMIT n", "OFFSET m" or "LIMIT n OFFSET m". */
  function ParseLimitWords(w: seq<string>): (r: Option<Limit>)
  {
    if |w| == 2 && w[0] == "LIMIT" && ParseInt(w[1]).Some? then
      Some(Limit(ParseInt(w[1]), None))
    else if |w| == 2 && w[0] == "OFFSET" && ParseInt(w[1]).Some? then
      Some(Limit(None, ParseInt(w[1])))
    else if |w| == 4 && w[0] == "LIMIT" && w[2] == "OFFSET" && ParseInt(w[1]).Some? && ParseInt(w[3]).Some? then
      Some(Limit(ParseInt(w[1]), ParseInt(w[3])))
    else None
  }

  /** Reads a limit clause back, word by word. */
  function ParseLimit(s: string): (r: Option<Limit>)
  {
    ParseLimitWords(Words(s))
  }

  /** Two words with no space in either and a space between. */
  lemma TwoWords(a: string, b: string)
    requires Spaceless(a) && Spaceless(b)
    ensures Words(a + " " + b) == [a, b]
  {
    WordsJoin(a, b);
    WordsSingle(a);
    WordsSingle(b);
  }

  /** A keyword and a number, a space between, are two words. */
  lemma WordPair(keyword: string, prefix: string, n: int)
    requires Spaceless(keyword) && prefix == keyword + " "
    ensures Words(prefix + IntToString(n)) == [keyword, IntToString(n)]
  {
    IntRoundTrip(n);
    assert prefix + IntToString(n) == keyword + " " + IntToString(n);
    TwoWords(keyword, IntToString(n));
  }

  lemma ParseCount(c: int)
    ensures ParseLimit("LIMIT " + IntToString(c)) == Some(Limit(Some(c), None))
  {
    IntRoundTrip(c);
    WordPair("LIMIT", "LIMIT ", c);
  }

  lemma ParseOffset(o: int)
    ensures ParseLimit("OFFSET " + IntToString(o)) == Some(Limit(None, Some(o)))
  {
    IntRoundTrip(o);
    WordPair("OFFSET", "OFFSET ", o);
  }

  /** Two keyword-number pairs, a space between, are four words. */
  lemma WordQuad(k1: string, p1: string, n1: int, k2: string, p2: string, n2: int)
    requires Spaceless(k1) && p1 == k1 + " " && Spaceless(k2) && p2 == k2 + " "
    ensures Words((p1 + IntToString(n1)) + " " + (p2 + IntToString(n2))) == [k1, IntToString(n1), k2, IntToString(n2)]
  {
    WordPair(k1, p1, n1);
    WordPair(k2, p2, n2);
    WordsJoin(p1 + IntToString(n1), p2 + IntToString(n2));
  }

  lemma ParseCountOffset(c: int, o: int, lc: string, lo: string)
    requires lc == "LIMIT " + IntToString(c) && lo == "OFFSET " + IntToString(o)
    ensures ParseLimit(lc + " " + lo) == Some(Limit(Some(c), Some(o)))
  {
    WordQuad("LIMIT", "LIMIT ", c, "OFFSET", "OFFSET ", o);
    ParseQuad(c, o);
  }

  lemma ParseQuad(c: int, o: int)
    ensures ParseLimitWords(["LIMIT", IntToString(c), "OFFSET", IntToString(o)]) == Some(Limit(Some(c), Some(o)))
  {
    IntRoundTrip(c);
    IntRoundTrip(o);
  }

  /**
   * The clause is absent exactly when the arguments hold neither key; otherwise it reads back as
   * the count and offset they ask for.
   */
  lemma LimitRoundTrip(args: Bundle)
    ensures LimitString(args).None? <==> ITEM_COUNT_KEY !in args && FIRST_ITEM_KEY !in args
    ensures LimitString(args).Some? ==> ParseLimit(LimitString(args).value) == Some(RequestedLimit(args))
  {
    var c, o := GetInt(args, ITEM_COUNT_KEY), GetInt(args, FIRST_ITEM_KEY);
    var lc, lo := "LIMIT " + IntToString(c), "OFFSET " + IntToString(o);
    LimitShapes(args, c, o, lc, lo);
    if ITEM_COUNT_KEY in args && FIRST_ITEM_KEY in args {
      ParseCountOffset(c, o, lc, lo);
    } else if ITEM_COUNT_KEY in args {
      ParseCount(c);
    } else if FIRST_ITEM_KEY in args {
      ParseOffset(o);
    }
  }

  /** The three shapes of the clause. */
  lemma LimitShapes(args: Bundle, c: int, o: int, lc: string, lo: string)
    requires c == GetInt(args, ITEM_COUNT_KEY) && o == GetInt(args, FIRST_ITEM_KEY)
    requires lc == "LIMIT " + IntToString(c) && lo == "OFFSET " + IntToString(o)
    ensures ITEM_COUNT_KEY in args && FIRST_ITEM_KEY in args ==> LimitString(args) == Some(lc + " " + lo)
    ensures ITEM_COUNT_KEY in args && FIRST_ITEM_KEY !in args ==> LimitString(args) == Some(lc)
    ensures ITEM_COUNT_KEY !in args && FIRST_ITEM_KEY in args ==> LimitString(args) == Some(lo)
    ensures ITEM_COUNT_KEY !in args && FIRST_ITEM_KEY !in args ==> LimitString(args) == None
  {
    assert lc + " " + "OFFSET " + IntToString(o) == lc + " " + lo;
    assert "" + "" + "OFFSET " + IntToString(o) == lo;
  }

  // ---------------------------------------------------------------------------------------------
  // The sort and limit string of onCreateLoader

  /** onCreateLoader's sort-and-limit string as the source builds it: the two strings run together. */
  function SortLimitAsWritten(sortOrder: Option<string>, limit: Option<string>): (r: Option<string>)
    ensures r.None? <==> (sortOrder.None? || sortOrder.value == "") && (limit.None? || limit.value == "")
  {
    var s := (if sortOrder.Some? then sortOrder.value else "") + (if limit.Some? then limit.value else "");
    if s == "" then None else Some(s)
  }

  /**
   * An order "a b" and a clause "c d" run together into "a bc d": three words where the two
   * strings have four.
   */
  lemma RunTogether(a: string, b: string, c: string, d: string)
    requires Spaceless(a) && Spaceless(b) && Spaceless(c) && Spaceless(d)
    ensures |Words((a + " " + b) + (c + " " + d))| == 3
    ensures |Words(a + " " + b) + Words(c + " " + d)| == 4
  {
    Regroup(a, b, c, d);
    SpacelessJoin(b, c);
    TwoWords(b + c, d);
    WordsJoin(a, (b + c) + " " + d);
    WordsSingle(a);
    TwoWords(a, b);
    TwoWords(c, d);
  }

  lemma Regroup(a: string, b: string, c: string, d: string)
    ensures (a + " " + b) + (c + " " + d) == a + " " + ((b + c) + " " + d)
  {
  }

  /** The sort order "score DESC" and the clause "LIMIT 5" run together into the word "DESCLIMIT". */
  lemma SortLimitRunsTogether(order: string, clause: string)
    requires order == "score DESC" && clause == "LIMIT 5"
    ensures SortLimitAsWritten(Some(order), Some(clause)) == Some(order + clause)
    ensures Words(order + clause) != Words(order) + Words(clause)
  {
    assert order == "score" + " " + "DESC";
    assert clause == "LIMIT" + " " + "5";
    RunTogether("score", "DESC", "LIMIT", "5");
  }

  /**
   * The sort-and-limit string with a space between a sort order and a limit clause: None when both
   * are absent or empty, otherwise whichever is present, or both apart.
   */
  function SortLimit(sortOrder: Option<string>, limit: Option<string>): (r: Option<string>)
    ensures r.None? <==> (sortOrder.None? || sortOrder.value == "") && (limit.None? || limit.value == "")
  {
    var order := if sortOrder.Some? then sortOrder.value else "";
    var clause := if limit.Some? then limit.value else "";
    var s := order + (if order != "" && clause != "" then " " else "") + clause;
    if s == "" then None else Some(s)
  }

  /** With both present the query sees the words of the sort order followed by those of the clause. */
  lemma SortLimitKeepsWords(sortOrder: string, limit: string)
    requires sortOrder != "" && limit != ""
    ensures SortLimit(Some(sortOrder), Some(limit)).Some?
    ensures Words(SortLimit(Some(sortOrder), Some(limit)).value) == Words(sortOrder) + Words(limit)
  {
    WordsJoin(sortOrder, limit);
  }

  /** Where the two strings cannot run together, the corrected string is the one the source builds. */
  lemma SortLimitAgrees(sortOrder: Option<string>, limit: Option<string>)
    requires sortOrder.None? || limit.None? || sortOrder.value == "" || limit.value == ""
    ensures SortLimit(sortOrder, limit) == SortLimitAsWritten(sortOrder, limit)
  {
    var order := if sortOrder.Some? then sortOrder.value else "";
    var clause := if limit.Some? then limit.value else "";
    if order == "" {
      assert order + "" + clause == order + clause;
    } else {
      assert order + "" + clause == order + clause;
    }
  }

  /**
   * The query onCreateLoader builds: the item URI and no sort-and-limit string when the arguments
   * name an item; otherwise the base URI, with the sort order and the limit clause of the
   * arguments, if any. `sortOrder` is what getSortOrderFromBundle returns for the arguments.
   */
  function LoaderQuery(args: Option<Bundle>, sortOrder: Option<string>): (q: (Uri, Option<string>))
    ensures args.Some? && ITEM_ID_KEY in args.value ==> q == (ItemUri(GetInt(args.value, ITEM_ID_KEY)), None)
    ensures args.None? ==> q == (BaseUri, None)
    ensures args.Some? && ITEM_ID_KEY !in args.value ==> q == (BaseUri, SortLimit(sortOrder, LimitString(args.value)))
  {
    if args.Some? then
      if ITEM_ID_KEY in args.value then (ItemUri(GetInt(args.value, ITEM_ID_KEY)), None)
      else (BaseUri, SortLimit(sortOrder, LimitString(args.value)))
    else (BaseUri, None)
  }

  /**
   * The query onCreateLoader builds as written: the same URI choice, with the sort order and the
   * limit clause run together.
   */
  function LoaderQueryAsWritten(args: Option<Bundle>, sortOrder: Option<string>): (q: (Uri, Option<string>))
    ensures args.Some? && ITEM_ID_KEY in args.value ==> q == (ItemUri(GetInt(args.value, ITEM_ID_KEY)), None)
    ensures args.None? ==> q == (BaseUri, None)
    ensures args.Some? && ITEM_ID_KEY !in args.value ==> q == (BaseUri, SortLimitAsWritten(sortOrder, LimitString(args.value)))
  {
    if args.Some? then
      if ITEM_ID_KEY in args.value then (ItemUri(GetInt(args.value, ITEM_ID_KEY)), None)
      else (BaseUri, SortLimitAsWritten(sortOrder, LimitString(args.value)))
    else (BaseUri, None)
  }

  /** The two queries differ only where a sort order and a limit clause are both present. */
  lemma LoaderQueriesAgree(args: Option<Bundle>, sortOrder: Option<string>)
    requires args.None? || ITEM_ID_KEY in args.value || sortOrder.None? || sortOrder.value == "" ||
             (ITEM_COUNT_KEY !in args.value && FIRST_ITEM_KEY !in args.value)
    ensures LoaderQueryAsWritten(args, sortOrder) == LoaderQuery(args, sortOrder)
  {
    if args.Some? && ITEM_ID_KEY !in args.value {
      LimitRoundTrip(args.value);
      SortLimitAgrees(sortOrder, LimitString(args.value));
    }
  }

  /** As written, an item count of 5 under the order "score DESC" gives "score DESCLIMIT 5". */
  lemma LoaderQueryRunsTogether(args: Bundle)
    requires args == map[ITEM_COUNT_KEY := IntValue(5)]
    ensures LoaderQueryAsWritten(Some(args), Some("score DESC")).1 == Some("score DESCLIMIT 5")
    ensures LoaderQuery(Some(args), Some("score DESC")).1 == Some("score DESC LIMIT 5")
  {
    assert ITEM_ID_KEY != ITEM_COUNT_KEY && FIRST_ITEM_KEY != ITEM_COUNT_KEY by {
      assert ITEM_ID_KEY[5] != ITEM_COUNT_KEY[5] && FIRST_ITEM_KEY[0] != ITEM_COUNT_KEY[0];
    }
    assert GetInt(args, ITEM_COUNT_KEY) == 5;
    assert IntToString(5) == "5";
    LimitShapes(args, 5, 0, "LIMIT 5", "OFFSET " + IntToString(0));
    assert LimitString(args) == Some("LIMIT 5");
    assert ITEM_ID_KEY !in args;
    assert "score DESC" + "LIMIT 5" == "score DESCLIMIT 5";
    assert "score DESC" + " " + "LIMIT 5" == "score DESC LIMIT 5";
  }

  /** Without an item id, the query's limit reads back as the count and offset the arguments ask for. */
  lemma LoaderQueryLimit(args: Bundle)
    requires ITEM_ID_KEY !in args && (ITEM_COUNT_KEY in args || FIRST_ITEM_KEY in args)
    ensures LoaderQuery(Some(args), None).1.Some?
    ensures ParseLimit(LoaderQuery(Some(args), None).1.value) == Some(RequestedLimit(args))
  {
    LimitRoundTrip(args);
    var l := LimitString(args).value;
    assert l != "";
    assert "" + "" + l == l;
  }

  // ---------------------------------------------------------------------------------------------
  // The source

  /** A DatabaseSource; `S` stands for the listeners' subjects and `T` for the items. */
  class DatabaseSource<S, T> {
    const minLoaderId: int
    const maxLoaderId: int
    var nextId: int
    var listeners: map<int, S>
    /** The calls of getNextId so far. */
    ghost var calls: nat

    ghost predicate Valid()
      reads this
    {
      maxLoaderId == minLoaderId + MAX_IDS_PER_LOADER && nextId == CycleId(minLoaderId, calls) &&
      forall id :: id in listeners ==> minLoaderId <= id < maxLoaderId
    }

    /** Takes the next block of ids from the manager and starts at its first id. */
    constructor(ids: LoaderIdManager)
      requires ids.Valid()
      modifies ids
      ensures Valid() && nextId == minLoaderId && listeners == map[] && calls == 0
      ensures minLoaderId == old(ids.nextIdStart) && ids.Valid() && ids.issued == old(ids.issued) + [minLoaderId]
    {
      var start := ids.GetNextId();
      minLoaderId := start;
      maxLoaderId := start + ids.GetMaxIdsPerLoader();
      nextId := start;
      listeners := map[];
      calls := 0;
    }

    /** getNextId: the current id; the next one follows it and wraps to the first at the end of the block. */
    method GetNextId() returns (id: int)
      requires Valid()
      modifies this`nextId, this`calls
      ensures id == old(nextId) == CycleId(minLoaderId, old(calls)) && minLoaderId <= id < maxLoaderId
      ensures nextId == NextId(minLoaderId, id) && calls == old(calls) + 1 && Valid()
    {
      CycleStep(minLoaderId, calls);
      var nextValidId := nextId;
      nextId := nextId + 1;
      if nextId == maxLoaderId {
        nextId := minLoaderId;
      }
      calls := calls + 1;
      return nextValidId;
    }

    /** startLoader: registers `subject` under a new id and returns it as the loader's observable. */
    method StartLoader(subject: S) returns (id: int, observable: S)
      requires Valid()
      modifies this`nextId, this`calls, this`listeners
      ensures id == old(nextId) && nextId == NextId(minLoaderId, id) && calls == old(calls) + 1
      ensures listeners == old(listeners)[id := subject] && observable == subject && Valid()
    {
      id := GetNextId();
      listeners := listeners[id := subject];
      observable := subject;
    }

    /** cancelLoader: forgets the listener of loader `id`. */
    method CancelLoader(id: int)
      requires Valid()
      modifies this`listeners
      ensures listeners == old(listeners) - {id} && Valid()
    {
      listeners := listeners - {id};
    }

    /**
     * onLoadFinished: forgets the listener of the loader and, if there was one, emits to it one
     * item per row, in row order.
     */
    method OnLoadFinished<R>(loaderId: int, rows: seq<R>, create: R -> T) returns (emitted: Option<Emission<S, T>>)
      requires Valid()
      modifies this`listeners
      ensures listeners == old(listeners) - {loaderId} && Valid()
      ensures emitted.Some? <==> loaderId in old(listeners)
      ensures emitted.Some? ==>
                emitted.value.subject == old(listeners)[loaderId] && |emitted.value.results| == |rows| &&
                forall k :: 0 <= k < |rows| ==> emitted.value.results[k] == create(rows[k])
    {
      var subject := if loaderId in listeners then Some(listeners[loaderId]) else None;
      listeners := listeners - {loaderId};
      if subject.Some? {
        var results := ReadRows(rows, create);
        emitted := Some(Emission(subject.value, results));
      } else {
        emitted := None;
      }
    }
  }
}
