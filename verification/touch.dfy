/**
 * The tile-selection state machine of GridSequenceTouchListener.java: touch events on a grid of
 * `columns` x `rows` tiles build the sequence `selected` of tile indices `row * columns + column`,
 * most recent tile first, and each change is reported to a `sequenceChanged` callback.
 *
 * The float hit testing (tile sizes, the distance to the tile centre) is done by the caller: an
 * event carries the tile coordinates it fell in and whether it was near that tile's centre. The
 * callback is returned as a value instead of being called.
 */
module Touch {
  import opened Wrappers
  import opened JavaInts

  const ELEMENT_ADDED := 1
  const ELEMENT_REMOVED := 2
  const SEQUENCE_CLEARED := 0

  datatype Action = Down | Move | Up | OtherAction

  /** One motion event: the pointer count, the action, the tile it fell in and whether it was near the tile's centre. */
  datatype TouchEvent = TouchEvent(pointerCount: int, action: Action, xt: int, yt: int, nearCentre: bool)

  /** The arguments of one sequenceChanged call. */
  datatype Change = Change(sequence: seq<int>, changeType: int, elemChanged: int)

  /** What onTouch returns, the sequence after the event, and the callback it makes, if any. */
  datatype Response = Response(handled: bool, selected: seq<int>, change: Option<Change>)

  /** Math.abs. */
  function Abs(a: int): (r: int)
  {
    if a < 0 then -a else a
  }

  predicate Inside(columns: int, rows: int, xt: int, yt: int)
  {
    0 <= xt < columns && 0 <= yt < rows
  }

  /**
   * onTouch on the sequence `sel`. The row of a stored tile is its index divided by `rows` when
   * `divideByRows` holds, as the source writes it, and by `columns` otherwise, which is what the
   * index encoding calls for (see README, Findings).
   */
  function Respond(initialized: bool, columns: int, rows: int, divideByRows: bool,
                   sel: seq<int>, t: TouchEvent): (r: Response)
    ensures r.handled <==> initialized
    ensures !initialized || t.pointerCount != 1 ==> r.selected == sel && r.change == None
    ensures r.change == None ==> r.selected == sel
    ensures r.change.Some? ==> r.change.value.sequence == r.selected
    ensures initialized && t.pointerCount == 1 && t.action == Up ==>
              r.selected == [] && r.change == Some(Change([], SEQUENCE_CLEARED, -1))
    ensures initialized && t.pointerCount == 1 && t.action == Down && Inside(columns, rows, t.xt, t.yt) ==>
              var cell := t.yt * columns + t.xt;
              r.selected == sel + [cell] && r.change == Some(Change(sel + [cell], ELEMENT_ADDED, cell))
  {
    if !initialized then Response(false, sel, None)
    else if t.pointerCount != 1 then Response(true, sel, None)
    else
      var cell := t.yt * columns + t.xt;
      var inside := Inside(columns, rows, t.xt, t.yt);
      if t.action == Down && inside then
        Response(true, sel + [cell], Some(Change(sel + [cell], ELEMENT_ADDED, cell)))
      else if t.action == Move && inside && |sel| > 0 then
        MoveResponse(columns, rows, if divideByRows then rows else columns, sel, t)
      else if t.action == Up then Response(true, [], Some(Change([], SEQUENCE_CLEARED, -1)))
      else Response(true, sel, None)
  }

  /**
   * The MOVE case of onTouch, for a tile inside the grid and a sequence that is not empty; the row
   * of a stored tile is its index divided by `d`.
   */
  function MoveResponse(columns: int, rows: int, d: int, sel: seq<int>, t: TouchEvent): (r: Response)
    requires |sel| > 0 && Inside(columns, rows, t.xt, t.yt) && d > 0
    ensures r.handled
    ensures r.change == None ==> r.selected == sel
    ensures r.change.Some? ==> r.change.value.sequence == r.selected
  {
    var cell := t.yt * columns + t.xt;
    var lastXT := JavaRem(sel[0], columns);
    var lastYT := JavaDiv(sel[0], d);
    var prevXT := if |sel| > 1 then JavaRem(sel[1], columns) else -1;
    var prevYT := if |sel| > 1 then JavaDiv(sel[1], d) else -1;
    var dx := Abs(lastXT - t.xt);
    var dy := Abs(lastYT - t.yt);
    if !(dx == 0 && dy == 0) && dx <= 1 && dy <= 1 &&
       ((cell !in sel && |sel| < rows * columns) || (t.xt == prevXT && t.yt == prevYT)) &&
       t.nearCentre
    then
      if cell !in sel then
        Response(true, [cell] + sel, Some(Change([cell] + sel, ELEMENT_ADDED, cell)))
      else
        Response(true, sel[1..], Some(Change(sel[1..], ELEMENT_REMOVED, lastYT * columns + lastXT)))
    else Response(true, sel, None)
  }

  /**
   * The callback fires exactly when the sequence changes, and on one event more: an UP on an
   * empty sequence reports SEQUENCE_CLEARED though nothing was selected.
   */
  lemma NotifiesOnChange(initialized: bool, columns: int, rows: int, divideByRows: bool,
                         sel: seq<int>, t: TouchEvent)
    ensures var r := Respond(initialized, columns, rows, divideByRows, sel, t);
            r.change.Some? <==>
              r.selected != sel || (initialized && t.pointerCount == 1 && t.action == Up && sel == [])
  {
  }

  lemma UpOnEmptyNotifies()
    ensures var r := Respond(true, 4, 4, true, [], TouchEvent(1, Up, 0, 0, false));
            r.selected == [] && r.change == Some(Change([], SEQUENCE_CLEARED, -1))
  {
  }

  // ---------------------------------------------------------------------------------------------
  // Grid geometry

  /** Two different tiles that touch, sideways or diagonally, on a grid `columns` wide. */
  predicate Neighbouring(a: int, b: int, columns: int)
  {
    columns > 0 && a != b && Abs(a % columns - b % columns) <= 1 && Abs(a / columns - b / columns) <= 1
  }

  /** The tile index of column `xt`, row `yt` decodes to that column and row. */
  lemma CellCoordinates(xt: int, yt: int, columns: int)
    requires 0 <= xt < columns
    ensures (yt * columns + xt) / columns == yt && (yt * columns + xt) % columns == xt
  {
    DivModUnique(yt * columns + xt, columns, yt, xt);
  }

  lemma MulBelowOne(k: int, d: int)
    requires d > 0 && k * d < d
    ensures k < 1
  {
  }

  /** Euclidean division has one quotient and one remainder. */
  lemma DivModUnique(a: int, d: int, q: int, r: int)
    requires d > 0 && 0 <= r < d && a == q * d + r
    ensures a / d == q && a % d == r
  {
    var q', r' := a / d, a % d;
    assert a == q' * d + r';
    assert (q' - q) * d == r - r';
    MulBelowOne(q' - q, d);
    assert (q - q') * d == r' - r;
    MulBelowOne(q - q', d);
  }

  /** A tile inside the grid has an index below `rows * columns`. */
  lemma CellInRange(xt: int, yt: int, columns: int, rows: int)
    requires Inside(columns, rows, xt, yt)
    ensures 0 <= yt * columns + xt < rows * columns
  {
    MulMonotone(0, yt, columns);
    MulMonotone(yt + 1, rows, columns);
    MulSucc(yt, columns);
  }

  lemma MulMonotone(a: int, b: int, c: int)
    requires a <= b && c >= 0
    ensures a * c <= b * c
  {
    assert b * c - a * c == (b - a) * c;
  }

  lemma MulSucc(a: int, c: int)
    ensures (a + 1) * c == a * c + c
  {
  }

  /** Tiles with the same column and row are the same tile. */
  lemma SameCoordinates(a: int, b: int, columns: int)
    requires columns > 0 && a % columns == b % columns && a / columns == b / columns
    ensures a == b
  {
  }

  /**
   * A selection the player can build: tiles of the grid, none twice, each touching the next, no
   * more of them than there are tiles.
   */
  ghost predicate Chain(sel: seq<int>, columns: int, rows: int)
  {
    (sel != [] ==> |sel| <= rows * columns) &&
    (forall k :: 0 <= k < |sel| ==> 0 <= sel[k] < rows * columns) &&
    (forall i, j :: 0 <= i < j < |sel| ==> sel[i] != sel[j]) &&
    (forall k :: 0 <= k < |sel| - 1 ==> Neighbouring(sel[k], sel[k + 1], columns))
  }

  // ---------------------------------------------------------------------------------------------
  // MOVE

  /**
   * A MOVE inside the grid on a non-empty selection, with rows read correctly: it puts the tile at
   * the head when it touches the head, is not selected yet, the selection is not full and the touch
   * is near the centre; it takes the head off, reporting the old head, when the tile is the second
   * one and the touch is near the centre; otherwise nothing happens.
   */
  lemma MoveRule(columns: int, rows: int, divideByRows: bool, sel: seq<int>, t: TouchEvent)
    requires !divideByRows || rows == columns
    requires Chain(sel, columns, rows) && |sel| > 0
    requires t.pointerCount == 1 && t.action == Move && Inside(columns, rows, t.xt, t.yt)
    ensures var r := Respond(true, columns, rows, divideByRows, sel, t);
            var cell := t.yt * columns + t.xt;
            (r.selected == [cell] + sel && r.change == Some(Change([cell] + sel, ELEMENT_ADDED, cell)))
            <==> Neighbouring(sel[0], cell, columns) && cell !in sel && |sel| < rows * columns && t.nearCentre
    ensures var r := Respond(true, columns, rows, divideByRows, sel, t);
            var cell := t.yt * columns + t.xt;
            (r.selected == sel[1..] && r.change == Some(Change(sel[1..], ELEMENT_REMOVED, sel[0])))
            <==> |sel| > 1 && cell == sel[1] && t.nearCentre
    ensures var r := Respond(true, columns, rows, divideByRows, sel, t);
            var cell := t.yt * columns + t.xt;
            !(Neighbouring(sel[0], cell, columns) && cell !in sel && |sel| < rows * columns && t.nearCentre) &&
            !(|sel| > 1 && cell == sel[1] && t.nearCentre) ==>
              r.selected == sel && r.change == None
  {
    var cell := t.yt * columns + t.xt;
    CellCoordinates(t.xt, t.yt, columns);
    NonNegativeDivision(sel[0], columns);
    var lastXT, lastYT := sel[0] % columns, sel[0] / columns;
    assert sel[0] == lastYT * columns + lastXT;
    if lastXT == t.xt && lastYT == t.yt {
      SameCoordinates(cell, sel[0], columns);
    }
    if |sel| > 1 {
      NonNegativeDivision(sel[1], columns);
      assert Neighbouring(sel[0], sel[1], columns);
      if t.xt == sel[1] % columns && t.yt == sel[1] / columns {
        SameCoordinates(cell, sel[1], columns);
      }
      assert sel[1] in sel;
    }
  }

  // ---------------------------------------------------------------------------------------------
  // The selection stays a chain

  lemma ChainTail(sel: seq<int>, columns: int, rows: int)
    requires Chain(sel, columns, rows) && |sel| > 0
    ensures Chain(sel[1..], columns, rows)
  {
    var q := sel[1..];
    forall k | 0 <= k < |q| - 1 ensures Neighbouring(q[k], q[k + 1], columns) {
      assert q[k] == sel[k + 1] && q[k + 1] == sel[k + 2];
    }
    forall i, j | 0 <= i < j < |q| ensures q[i] != q[j] {
      assert q[i] == sel[i + 1] && q[j] == sel[j + 1];
    }
  }

  lemma ChainCons(cell: int, sel: seq<int>, columns: int, rows: int)
    requires Chain(sel, columns, rows) && 0 <= cell < rows * columns && cell !in sel
    requires |sel| < rows * columns
    requires sel != [] ==> Neighbouring(sel[0], cell, columns)
    ensures Chain([cell] + sel, columns, rows)
  {
    var p := [cell] + sel;
    forall k | 0 <= k < |p| - 1 ensures Neighbouring(p[k], p[k + 1], columns) {
      if k > 0 {
        assert p[k] == sel[k - 1] && p[k + 1] == sel[k];
      }
    }
    forall i, j | 0 <= i < j < |p| ensures p[i] != p[j] {
      assert p[j] == sel[j - 1];
      if i > 0 {
        assert p[i] == sel[i - 1];
      }
    }
  }

  /**
   * Every event but a DOWN on a non-empty selection keeps the selection a chain, when rows are
   * read correctly, which the source does on square grids.
   */
  lemma ChainPreserved(initialized: bool, columns: int, rows: int, divideByRows: bool,
                       sel: seq<int>, t: TouchEvent)
    requires !divideByRows || rows == columns
    requires Chain(sel, columns, rows) && !(t.action == Down && sel != [])
    ensures Chain(Respond(initialized, columns, rows, divideByRows, sel, t).selected, columns, rows)
  {
    var r := Respond(initialized, columns, rows, divideByRows, sel, t);
    if initialized && t.pointerCount == 1 && Inside(columns, rows, t.xt, t.yt) {
      var cell := t.yt * columns + t.xt;
      CellInRange(t.xt, t.yt, columns, rows);
      if t.action == Down {
        ChainCons(cell, sel, columns, rows);
        assert sel + [cell] == [cell] + sel;
      } else if t.action == Move && |sel| > 0 {
        MoveRule(columns, rows, divideByRows, sel, t);
        if r.selected == [cell] + sel {
          ChainCons(cell, sel, columns, rows);
        } else if r.selected == sel[1..] {
          ChainTail(sel, columns, rows);
        }
      }
    }
  }

  /** The sequence after each of `events` in turn. */
  function Replay(initialized: bool, columns: int, rows: int, divideByRows: bool,
                  sel: seq<int>, events: seq<TouchEvent>): seq<int>
    decreases |events|
  {
    if events == [] then sel
    else
      var next := Respond(initialized, columns, rows, divideByRows, sel, events[0]).selected;
      Replay(initialized, columns, rows, divideByRows, next, events[1..])
  }

  lemma {:induction false} ReplayKeepsChain(initialized: bool, columns: int, rows: int, divideByRows: bool,
                                            sel: seq<int>, events: seq<TouchEvent>)
    requires !divideByRows || rows == columns
    requires Chain(sel, columns, rows)
    requires forall k :: 0 <= k < |events| ==> events[k].action == Down ==> k == 0 && sel == []
    ensures Chain(Replay(initialized, columns, rows, divideByRows, sel, events), columns, rows)
    decreases |events|
  {
    if events != [] {
      ChainPreserved(initialized, columns, rows, divideByRows, sel, events[0]);
      var next := Respond(initialized, columns, rows, divideByRows, sel, events[0]).selected;
      var rest := events[1..];
      forall k | 0 <= k < |rest| ensures rest[k].action != Down {
        assert rest[k] == events[k + 1];
      }
      ReplayKeepsChain(initialized, columns, rows, divideByRows, next, rest);
    }
  }

  /**
   * A gesture from an empty selection, whose only DOWN is its first event, leaves a chain: no tile
   * twice, each touching the next, at most `rows * columns` tiles.
   */
  lemma GestureKeepsChain(columns: int, rows: int, divideByRows: bool, events: seq<TouchEvent>)
    requires !divideByRows || rows == columns
    requires forall k :: 0 < k < |events| ==> events[k].action != Down
    ensures Chain(Replay(true, columns, rows, divideByRows, [], events), columns, rows)
  {
    ReplayKeepsChain(true, columns, rows, divideByRows, [], events);
  }

  // ---------------------------------------------------------------------------------------------
  // Reading rows by `rows`

  /**
   * On a grid 2 wide and 3 high, dividing by `rows` puts tile 5 (column 1, row 2) in row 1, so a
   * MOVE to tile 1 (column 1, row 0) is taken for a neighbour and the selection stops being a chain.
   */
  lemma RowsDivisorBreaksChain()
    ensures Chain([5], 2, 3)
    ensures var t := TouchEvent(1, Move, 1, 0, true);
            Respond(true, 2, 3, true, [5], t).selected == [1, 5] && !Chain([1, 5], 2, 3)
  {
    assert JavaRem(5, 2) == 1 && JavaDiv(5, 3) == 1;
    var s := [1, 5];
    assert s[0] == 1 && s[1] == 5 && 1 / 2 == 0 && 5 / 2 == 2;
    assert !Neighbouring(s[0], s[1], 2);
  }

  /**
   * On a grid 3 wide and 2 high, dividing by `rows` puts tile 5 (column 2, row 1) in row 2, so a
   * MOVE to tile 2 just above it is refused, where reading rows by `columns` accepts it.
   */
  lemma RowsDivisorRefusesNeighbour()
    ensures Neighbouring(5, 2, 3)
    ensures var t := TouchEvent(1, Move, 2, 0, true);
            Respond(true, 3, 2, true, [5], t).selected == [5] &&
            Respond(true, 3, 2, false, [5], t).selected == [2, 5]
  {
  }

  // ---------------------------------------------------------------------------------------------
  // The listener

  class TouchListener {
    var initialized: bool
    var columns: int
    var rows: int
    var selected: seq<int>

    constructor()
      ensures !initialized && columns == 0 && rows == 0 && selected == []
    {
      initialized := false;
      columns := 0;
      rows := 0;
      selected := [];
    }

    /** initialize, for the grid dimensions (the view sizes are floats and are left out). */
    method Initialize(columns: int, rows: int)
      modifies this`initialized, this`columns, this`rows
      ensures initialized && this.columns == columns && this.rows == rows
    {
      this.columns := columns;
      this.rows := rows;
      initialized := true;
    }

    /** setGridSize. */
    method SetGridSize(columns: int, rows: int)
      modifies this`columns, this`rows
      ensures this.columns == columns && this.rows == rows
    {
      this.columns := columns;
      this.rows := rows;
    }

    /**
     * onTouch: updates the selection for one event and returns what onTouch returns and the
     * sequenceChanged call it makes, if any.
     */
    method OnTouch(t: TouchEvent) returns (handled: bool, change: Option<Change>)
      modifies this`selected
      ensures Response(handled, selected, change) == Respond(initialized, columns, rows, false, old(selected), t)
      ensures old(Chain(selected, columns, rows)) && !(t.action == Down && old(selected) != []) ==>
                Chain(selected, columns, rows)
    {
      if Chain(selected, columns, rows) && !(t.action == Down && selected != []) {
        ChainPreserved(initialized, columns, rows, false, selected, t);
      }
      if !initialized {
        return false, None;
      }
      handled, change := true, None;
      if t.pointerCount == 1 {
        var xt, yt := t.xt, t.yt;
        var inside := xt >= 0 && xt < columns && yt >= 0 && yt < rows;
        if t.action == Down && inside {
          selected := selected + [yt * columns + xt];
          change := Some(Change(selected, ELEMENT_ADDED, yt * columns + xt));
        } else if t.action == Move && inside && |selected| > 0 {
          change := OnMove(t);
        } else if t.action == Up {
          selected := [];
          change := Some(Change(selected, SEQUENCE_CLEARED, -1));
        }
      }
    }

    /** The MOVE branch of onTouch. */
    method OnMove(t: TouchEvent) returns (change: Option<Change>)
      requires |selected| > 0 && Inside(columns, rows, t.xt, t.yt)
      modifies this`selected
      ensures Response(true, selected, change) == MoveResponse(columns, rows, columns, old(selected), t)
    {
      change := None;
      var xt, yt := t.xt, t.yt;
      // rows are read by dividing by `columns`; the source divides by `rows`
      var lastXT := JavaRem(selected[0], columns);
      var lastYT := JavaDiv(selected[0], columns);
      var prevXT := -1;
      var prevYT := -1;
      if |selected| > 1 {
        prevXT := JavaRem(selected[1], columns);
        prevYT := JavaDiv(selected[1], columns);
      }
      var dx := Abs(lastXT - xt);
      var dy := Abs(lastYT - yt);
      if !(dx == 0 && dy == 0) && (dx <= 1 && dy <= 1) &&
         ((yt * columns + xt !in selected && |selected| < rows * columns) || (xt == prevXT && yt == prevYT))
      {
        if t.nearCentre {
          var changeType, elemChanged;
          if yt * columns + xt !in selected {
            selected := [yt * columns + xt] + selected;
            changeType := ELEMENT_ADDED;
            elemChanged := yt * columns + xt;
          } else {
            selected := selected[1..];
            changeType := ELEMENT_REMOVED;
            elemChanged := lastYT * columns + lastXT;
          }
          change := Some(Change(selected, changeType, elemChanged));
        }
      }
    }
  }
}
