/**
 * The letter grid of dict/LetterGrid.java: 8-directional, non-wrapping adjacency over a
 * row-major board, and the depth-capped backtracking search that collects dictionary words.
 *
 * A Letter object (its token, its bordering list and its used flag) is modelled by the cell's
 * index into three parallel fields of the grid.
 */
module Grid {
  import opened Wrappers
  import opened Lex
  import opened Dictionaries

  /** The cap a new grid starts with. */
  const DEFAULT_MAX_WORD_LENGTH: int := 8

  // ---------------------------------------------------------------------------------------------
  // Upper-casing of tokens (String.toUpperCase(Locale.US) on ASCII letters)

  function UpperChar(c: char): (r: char)
  {
    if 'a' <= c <= 'z' then (c as int - 32) as char else c
  }

  function UpperCase(s: string): (r: string)
    ensures |r| == |s|
    ensures forall i :: 0 <= i < |s| ==> !('a' <= r[i] <= 'z')
  {
    seq(|s|, i requires 0 <= i < |s| => UpperChar(s[i]))
  }

  /** Upper-casing twice is upper-casing once. */
  lemma UpperCaseIdempotent(s: string)
    ensures UpperCase(UpperCase(s)) == UpperCase(s)
  {
  }

  // ---------------------------------------------------------------------------------------------
  // Geometry

  /** The intended relation: distinct cells whose rows and columns differ by at most one. */
  predicate Adjacent(columns: nat, rows: nat, a: int, b: int)
  {
    columns > 0 && 0 <= a < columns * rows && 0 <= b < columns * rows && a != b &&
    -1 <= a / columns - b / columns <= 1 && -1 <= a % columns - b % columns <= 1
  }

  /** The `directions` table: UP, DOWN, LEFT, RIGHT, UP LEFT, UP RIGHT, DOWN LEFT, DOWN RIGHT. */
  function Direction(columns: int, j: int): (r: int)
  {
    match j
    case 0 => -columns
    case 1 => columns
    case 2 => -1
    case 3 => 1
    case 4 => -columns - 1
    case 5 => -columns + 1
    case 6 => columns - 1
    case _ => columns + 1
  }

  /** The four `continue` tests of the constructor's inner loop. */
  predicate Clipped(columns: nat, rows: nat, i: int, j: int)
    requires columns > 0
  {
    var row := i / columns;
    var col := i % columns;
    (col == 0 && (j == 2 || j == 4 || j == 6)) ||
    (col == columns - 1 && (j == 3 || j == 5 || j == 7)) ||
    (row == 0 && (j == 0 || j == 4 || j == 5)) ||
    (row == rows - 1 && (j == 1 || j == 6 || j == 7))
  }

  /** The bordering list of cell `i` after the first `j` directions. */
  function NeighboursUpTo(columns: nat, rows: nat, i: int, j: nat): (r: seq<int>)
    requires columns > 0
    ensures |r| <= j
  {
    if j == 0 then []
    else NeighboursUpTo(columns, rows, i, j - 1) +
         (if Clipped(columns, rows, i, j - 1) then [] else [i + Direction(columns, j - 1)])
  }

  /** The bordering list the constructor builds for cell `i`. */
  function Neighbours(columns: nat, rows: nat, i: int): (r: seq<int>)
    requires columns > 0
  {
    NeighboursUpTo(columns, rows, i, 8)
  }

  // Row and column offsets of each direction (proof helpers).
  function RowStep(j: int): (r: int)
  {
    if j == 0 || j == 4 || j == 5 then -1 else if j == 1 || j == 6 || j == 7 then 1 else 0
  }

  function ColStep(j: int): (r: int)
  {
    if j == 2 || j == 4 || j == 6 then -1 else if j == 3 || j == 5 || j == 7 then 1 else 0
  }

  lemma MulBound(k: int, c: int)
    requires c > 0 && -c < k * c < c
    ensures k == 0
  {
  }

  lemma MulMonotone(a: int, b: int, c: nat)
    requires a <= b
    ensures a * c <= b * c
  {
  }

  /** Quotient and remainder are unique. */
  lemma DivModUnique(x: int, columns: int, q: int, m: int)
    requires columns > 0 && 0 <= m < columns && x == q * columns + m
    ensures x / columns == q && x % columns == m
  {
    var q', m' := x / columns, x % columns;
    assert x == q' * columns + m';
    assert (q - q') * columns == m' - m;
    MulBound(q - q', columns);
  }

  lemma Distribute(x: int, y: int, c: int)
    ensures (x + y) * c == x * c + y * c
  {
  }

  lemma RowBelow(columns: nat, rows: nat, i: int)
    requires columns > 0 && 0 <= i < columns * rows
    ensures 0 <= i / columns < rows
  {
  }

  lemma DirectionSplit(columns: int, j: int)
    requires 0 <= j < 8
    ensures Direction(columns, j) == RowStep(j) * columns + ColStep(j)
  {
  }

  /** A kept direction leads to the cell one step away in that direction, inside the board. */
  lemma StepLands(columns: nat, rows: nat, i: int, j: int)
    requires columns > 0 && 0 <= i < columns * rows && 0 <= j < 8
    requires !Clipped(columns, rows, i, j)
    ensures var b := i + Direction(columns, j);
            0 <= b < columns * rows &&
            b / columns == i / columns + RowStep(j) && b % columns == i % columns + ColStep(j)
  {
    var row, col := i / columns, i % columns;
    DivMod(i, columns);
    RowBelow(columns, rows, i);
    KeptStep(columns, rows, row, col, j);
    DirectionSplit(columns, j);
    Landing(columns, rows, i, row, col, RowStep(j), ColStep(j));
  }

  /** A direction the four tests keep stays inside the board. */
  lemma KeptStep(columns: nat, rows: nat, row: int, col: int, j: int)
    requires 0 <= row < rows && 0 <= col < columns && 0 <= j < 8
    requires !((col == 0 && (j == 2 || j == 4 || j == 6)) ||
               (col == columns - 1 && (j == 3 || j == 5 || j == 7)) ||
               (row == 0 && (j == 0 || j == 4 || j == 5)) ||
               (row == rows - 1 && (j == 1 || j == 6 || j == 7)))
    ensures 0 <= row + RowStep(j) < rows && 0 <= col + ColStep(j) < columns
  {
  }

  /** Moving by `dr` rows and `dc` columns from the cell at `row`, `col` to a cell of the board. */
  lemma Landing(columns: nat, rows: nat, i: int, row: int, col: int, dr: int, dc: int)
    requires columns > 0 && i == row * columns + col && 0 <= col < columns
    requires 0 <= row + dr < rows && 0 <= col + dc < columns
    ensures var b := i + (dr * columns + dc);
            0 <= b < columns * rows && b / columns == row + dr && b % columns == col + dc
  {
    var b := i + (dr * columns + dc);
    Distribute(row, dr, columns);
    assert b == (row + dr) * columns + (col + dc);
    DivModUnique(b, columns, row + dr, col + dc);
    CellBelow(columns, rows, row + dr, col + dc);
  }

  /** The cell at row `r`, column `c` lies on the board. */
  lemma CellBelow(columns: nat, rows: nat, r: int, c: int)
    requires 0 <= r < rows && 0 <= c < columns
    ensures 0 <= r * columns + c < columns * rows
  {
    MulMonotone(0, r, columns);
    MulMonotone(r + 1, rows, columns);
    Distribute(r, 1, columns);
  }

  /** Membership in the partial bordering list: some kept direction among the first `j`. */
  lemma {:induction false} NeighboursUpToMembers(columns: nat, rows: nat, i: int, j: nat, b: int)
    requires columns > 0
    ensures b in NeighboursUpTo(columns, rows, i, j) <==>
              exists d :: 0 <= d < j && !Clipped(columns, rows, i, d) && b == i + Direction(columns, d)
  {
    if j > 0 {
      NeighboursUpToMembers(columns, rows, i, j - 1, b);
    }
  }

  /** No cell occurs twice. */
  predicate Distinct(cells: seq<int>)
  {
    forall x, y :: 0 <= x < y < |cells| ==> cells[x] != cells[y]
  }

  /** Kept directions lead to pairwise distinct cells. */
  lemma {:induction false} NeighboursUpToDistinct(columns: nat, rows: nat, i: int, j: nat)
    requires columns > 0 && 0 <= i < columns * rows && j <= 8
    ensures Distinct(NeighboursUpTo(columns, rows, i, j))
  {
    if j > 0 {
      NeighboursUpToDistinct(columns, rows, i, j - 1);
      var front := NeighboursUpTo(columns, rows, i, j - 1);
      if !Clipped(columns, rows, i, j - 1) {
        var b := i + Direction(columns, j - 1);
        forall x | 0 <= x < |front| ensures front[x] != b {
          NeighboursUpToMembers(columns, rows, i, j - 1, front[x]);
          var d :| 0 <= d < j - 1 && !Clipped(columns, rows, i, d) && front[x] == i + Direction(columns, d);
          DirectionsApart(columns, rows, i, d, j - 1);
        }
        AppendDistinct(front, b);
        assert NeighboursUpTo(columns, rows, i, j) == front + [b];
      }
    }
  }

  /** Two different kept directions lead to different cells. */
  lemma DirectionsApart(columns: nat, rows: nat, i: int, d: int, e: int)
    requires columns > 0 && 0 <= i < columns * rows && 0 <= d < 8 && 0 <= e < 8 && d != e
    requires !Clipped(columns, rows, i, d) && !Clipped(columns, rows, i, e)
    ensures i + Direction(columns, d) != i + Direction(columns, e)
  {
    StepLands(columns, rows, i, d);
    StepLands(columns, rows, i, e);
    StepsDiffer(d, e);
  }

  /** No two directions have the same offsets. */
  lemma StepsDiffer(d: int, e: int)
    requires 0 <= d < 8 && 0 <= e < 8 && d != e
    ensures RowStep(d) != RowStep(e) || ColStep(d) != ColStep(e)
  {
  }

  lemma AppendDistinct(front: seq<int>, b: int)
    requires Distinct(front)
    requires forall x :: 0 <= x < |front| ==> front[x] != b
    ensures Distinct(front + [b])
  {
  }

  /** The offsets of a neighbour determine the direction that reaches it. */
  function DirectionOf(dr: int, dc: int): (r: int)
  {
    if dr == -1 then (if dc == -1 then 4 else if dc == 0 then 0 else 5)
    else if dr == 0 then (if dc == -1 then 2 else 3)
    else (if dc == -1 then 6 else if dc == 0 then 1 else 7)
  }

  lemma DirectionOfSteps(dr: int, dc: int)
    requires -1 <= dr <= 1 && -1 <= dc <= 1 && (dr != 0 || dc != 0)
    ensures 0 <= DirectionOf(dr, dc) < 8
    ensures RowStep(DirectionOf(dr, dc)) == dr && ColStep(DirectionOf(dr, dc)) == dc
  {
  }

  lemma InsideNotClipped(columns: nat, rows: nat, a: int, d: int)
    requires columns > 0 && 0 <= a < columns * rows && 0 <= d < 8
    requires 0 <= a / columns + RowStep(d) < rows && 0 <= a % columns + ColStep(d) < columns
    ensures !Clipped(columns, rows, a, d)
  {
  }

  /** Every adjacent cell is reached through some kept direction. */
  lemma AdjacentReached(columns: nat, rows: nat, a: int, b: int)
    requires Adjacent(columns, rows, a, b)
    ensures exists d :: 0 <= d < 8 && !Clipped(columns, rows, a, d) && b == a + Direction(columns, d)
  {
    var ra, ca, rb, cb := a / columns, a % columns, b / columns, b % columns;
    DivMod(a, columns);
    DivMod(b, columns);
    RowBelow(columns, rows, a);
    RowBelow(columns, rows, b);
    var d := DirectionOf(rb - ra, cb - ca);
    DirectionOfSteps(rb - ra, cb - ca);
    InsideNotClipped(columns, rows, a, d);
    DirectionSplit(columns, d);
    Offset(columns, a, b, ra, ca, rb, cb);
    assert b == a + Direction(columns, d);
  }

  lemma DivMod(x: int, c: int)
    requires c > 0
    ensures x == (x / c) * c + x % c && 0 <= x % c < c
  {
  }

  /** Two cells differ by their row difference times the width plus their column difference. */
  lemma Offset(columns: int, a: int, b: int, ra: int, ca: int, rb: int, cb: int)
    requires a == ra * columns + ca && b == rb * columns + cb
    ensures b == a + ((rb - ra) * columns + (cb - ca))
  {
    Distribute(ra, rb - ra, columns);
  }

  /**
   * The constructor's bordering list is exactly the set of adjacent cells, without repetitions:
   * b is a neighbour of a iff a != b and their rows and columns each differ by at most one.
   */
  lemma NeighboursExact(columns: nat, rows: nat, a: int)
    requires columns > 0 && 0 <= a < columns * rows
    ensures forall b :: b in Neighbours(columns, rows, a) <==> Adjacent(columns, rows, a, b)
    ensures var r := Neighbours(columns, rows, a);
            |r| <= 8 && forall x, y :: 0 <= x < y < |r| ==> r[x] != r[y]
  {
    NeighboursUpToDistinct(columns, rows, a, 8);
    forall b ensures b in Neighbours(columns, rows, a) <==> Adjacent(columns, rows, a, b) {
      NeighboursUpToMembers(columns, rows, a, 8, b);
      if b in Neighbours(columns, rows, a) {
        var d :| 0 <= d < 8 && !Clipped(columns, rows, a, d) && b == a + Direction(columns, d);
        StepLands(columns, rows, a, d);
      }
      if Adjacent(columns, rows, a, b) {
        AdjacentReached(columns, rows, a, b);
      }
    }
  }

  /** Adjacency is symmetric. */
  lemma AdjacentSymmetric(columns: nat, rows: nat, a: int, b: int)
    ensures Adjacent(columns, rows, a, b) <==> Adjacent(columns, rows, b, a)
  {
  }

  /** No wraparound: a cell in the leftmost column has no neighbour in the rightmost column. */
  lemma NoWraparound(columns: nat, rows: nat, a: int, b: int)
    requires columns > 2 && Adjacent(columns, rows, a, b)
    ensures a % columns == 0 ==> b % columns != columns - 1
    ensures a / columns == 0 ==> rows < 3 || b / columns != rows - 1
  {
  }

  // ---------------------------------------------------------------------------------------------
  // What the search computes

  /** Everything the search reads: tokens, bordering lists, dictionary entries and the cap. */
  datatype SearchSpace = SearchSpace(tokens: seq<string>, bordering: seq<seq<int>>, dict: seq<Bytes>, maxLen: int)

  predicate CellsIn(cells: seq<int>, n: int)
  {
    forall k :: 0 <= k < |cells| ==> 0 <= cells[k] < n
  }

  /** One bordering list per cell, each naming cells of the grid. */
  ghost predicate WellFormed(sp: SearchSpace)
  {
    |sp.tokens| == |sp.bordering| &&
    forall a :: 0 <= a < |sp.bordering| ==> CellsIn(sp.bordering[a], |sp.tokens|)
  }

  /** The number of cells whose used flag is down. */
  function FalseCount(used: seq<bool>): (r: nat)
  {
    if used == [] then 0 else (if used[0] then 0 else 1) + FalseCount(used[1..])
  }

  lemma {:induction false} FalseCountMark(used: seq<bool>, c: int)
    requires 0 <= c < |used| && !used[c]
    ensures FalseCount(used[c := true]) == FalseCount(used) - 1
  {
    if c > 0 {
      assert used[c := true][1..] == used[1..][c - 1 := true];
      FalseCountMark(used[1..], c - 1);
    } else {
      assert used[c := true][1..] == used[1..];
    }
  }

  /**
   * The words one call of iterateWordsRecursive adds: nothing when `word` is over the cap, else
   * what each cell of `cells` contributes.
   */
  ghost function FromCells(sp: SearchSpace, cells: seq<int>, word: string, used: seq<bool>): (r: set<string>)
    requires WellFormed(sp) && |used| == |sp.tokens| && CellsIn(cells, |sp.tokens|)
    decreases FalseCount(used), |cells|
  {
    if |word| > sp.maxLen || cells == [] then {}
    else FromCell(sp, cells[0], word, used) + FromCells(sp, cells[1..], word, used)
  }

  /**
   * One pass of that call's loop, for cell `c`: nothing for a used cell; else the extended word
   * if contains accepts it, and, if containsPrefix accepts it, the words of the recursive call
   * on `c`'s bordering cells with `c` marked used.
   */
  ghost function FromCell(sp: SearchSpace, c: int, word: string, used: seq<bool>): (r: set<string>)
    requires WellFormed(sp) && |used| == |sp.tokens| && 0 <= c < |sp.tokens|
    decreases FalseCount(used), 0
  {
    if used[c] then {}
    else
      var w := word + sp.tokens[c];
      (if Contains(sp.dict, w) then {w} else {}) +
      (if ContainsPrefix(sp.dict, w) then
         FalseCountMark(used, c);
         FromCells(sp, sp.bordering[c], w, used[c := true])
       else {})
  }

  /** The word a sequence of cells spells: the concatenation of their tokens. */
  function Spell(tokens: seq<string>, path: seq<int>): (r: string)
    requires CellsIn(path, |tokens|)
  {
    if path == [] then "" else tokens[path[0]] + Spell(tokens, path[1..])
  }

  /** A simple path: cells of the grid, each bordering the previous one, none repeated. */
  ghost predicate IsTrail(sp: SearchSpace, path: seq<int>)
  {
    WellFormed(sp) && CellsIn(path, |sp.tokens|) &&
    (forall i :: 0 <= i < |path| - 1 ==> path[i + 1] in sp.bordering[path[i]]) &&
    (forall i, j :: 0 <= i < j < |path| ==> path[i] != path[j])
  }

  /**
   * The search follows `path` to its end from `word`: the partial word before each tile is
   * within the cap, and the partial word after each tile but the last passes containsPrefix.
   */
  ghost predicate Pursued(sp: SearchSpace, word: string, path: seq<int>)
    requires CellsIn(path, |sp.tokens|)
  {
    (forall i :: 0 <= i < |path| ==> |word + Spell(sp.tokens, path[..i])| <= sp.maxLen) &&
    (forall i :: 0 < i < |path| ==> ContainsPrefix(sp.dict, word + Spell(sp.tokens, path[..i])))
  }

  /** `w` is found along `path`, which starts in `cells`, extends `word` and avoids used cells. */
  ghost predicate FoundAlong(sp: SearchSpace, cells: seq<int>, word: string, used: seq<bool>,
                             path: seq<int>, w: string)
    requires |used| == |sp.tokens|
  {
    IsTrail(sp, path) && |path| > 0 && path[0] in cells &&
    (forall i :: 0 <= i < |path| ==> !used[path[i]]) &&
    w == word + Spell(sp.tokens, path) && Contains(sp.dict, w) && Pursued(sp, word, path)
  }

  lemma SpellCons(tokens: seq<string>, c: int, q: seq<int>, i: int)
    requires 0 <= c < |tokens| && CellsIn(q, |tokens|) && 1 <= i <= |q| + 1
    ensures ([c] + q)[..i] == [c] + q[..i - 1]
    ensures Spell(tokens, ([c] + q)[..i]) == tokens[c] + Spell(tokens, q[..i - 1])
  {
    assert ([c] + q)[..i] == [c] + q[..i - 1];
    assert ([c] + q[..i - 1])[1..] == q[..i - 1];
  }

  lemma SpellSingle(tokens: seq<string>, c: int)
    requires 0 <= c < |tokens|
    ensures Spell(tokens, [c]) == tokens[c]
  {
    assert [c][1..] == [];
  }

  /** Prepending a cell to a trail that starts on one of its bordering cells. */
  lemma TrailConsLinked(sp: SearchSpace, c: int, q: seq<int>)
    requires WellFormed(sp) && 0 <= c < |sp.tokens| && IsTrail(sp, q) && |q| > 0
    requires q[0] in sp.bordering[c] && c !in q
    ensures IsTrail(sp, [c] + q)
  {
    var path := [c] + q;
    forall i | 0 <= i < |path| - 1 ensures path[i + 1] in sp.bordering[path[i]] {
      if i > 0 {
        assert path[i] == q[i - 1] && path[i + 1] == q[i];
      }
    }
    forall i, j | 0 <= i < j < |path| ensures path[i] != path[j] {
      assert path[j] == q[j - 1];
      if i > 0 {
        assert path[i] == q[i - 1];
      }
    }
  }

  /** The partial words along `[c] + q` from `word` are those along `q` from the extended word. */
  lemma TrailConsPursued(sp: SearchSpace, c: int, word: string, q: seq<int>)
    requires WellFormed(sp) && 0 <= c < |sp.tokens| && CellsIn(q, |sp.tokens|)
    requires |word| <= sp.maxLen && ContainsPrefix(sp.dict, word + sp.tokens[c])
    requires Pursued(sp, word + sp.tokens[c], q)
    ensures Pursued(sp, word, [c] + q)
  {
    var path := [c] + q;
    forall i | 0 <= i < |path| ensures |word + Spell(sp.tokens, path[..i])| <= sp.maxLen {
      if i == 0 {
        assert path[..0] == [];
      } else {
        SpellAfter(sp.tokens, word, c, q, i);
      }
    }
    forall i | 0 < i < |path| ensures ContainsPrefix(sp.dict, word + Spell(sp.tokens, path[..i])) {
      SpellAfter(sp.tokens, word, c, q, i);
    }
  }

  /** The word along the first `i` cells of `[c] + q` is the word through `c`, then `q`'s first `i - 1`. */
  lemma SpellAfter(tokens: seq<string>, word: string, c: int, q: seq<int>, i: int)
    requires 0 <= c < |tokens| && CellsIn(q, |tokens|) && 1 <= i <= |q| + 1
    ensures word + Spell(tokens, ([c] + q)[..i]) == (word + tokens[c]) + Spell(tokens, q[..i - 1])
    ensures i == 1 ==> word + Spell(tokens, ([c] + q)[..i]) == word + tokens[c]
  {
    SpellCons(tokens, c, q, i);
    if i == 1 {
      assert q[..0] == [];
    }
  }

  /** Prepending a cell the search may enter to a path found from its bordering list. */
  lemma TrailCons(sp: SearchSpace, c: int, word: string, used: seq<bool>, q: seq<int>, w: string)
    requires WellFormed(sp) && |used| == |sp.tokens| && 0 <= c < |sp.tokens| && !used[c]
    requires |word| <= sp.maxLen && ContainsPrefix(sp.dict, word + sp.tokens[c])
    requires FoundAlong(sp, sp.bordering[c], word + sp.tokens[c], used[c := true], q, w)
    ensures FoundAlong(sp, [c], word, used, [c] + q, w)
  {
    var path := [c] + q;
    assert c !in q by {
      forall i | 0 <= i < |q| ensures q[i] != c {
        assert !used[c := true][q[i]];
      }
    }
    TrailConsLinked(sp, c, q);
    TrailConsPursued(sp, c, word, q);
    SpellCons(sp.tokens, c, q, |q| + 1);
    assert q[..|q|] == q && path[..|q| + 1] == path;
    assert w == word + Spell(sp.tokens, path);
    forall i | 0 <= i < |path| ensures !used[path[i]] {
      if i > 0 {
        assert path[i] == q[i - 1];
      }
    }
  }

  /** The partial words along `q` from the extended word are those along `[c] + q` from `word`. */
  lemma TrailUnconsPursued(sp: SearchSpace, c: int, word: string, q: seq<int>)
    requires WellFormed(sp) && 0 <= c < |sp.tokens| && CellsIn(q, |sp.tokens|)
    requires Pursued(sp, word, [c] + q)
    ensures Pursued(sp, word + sp.tokens[c], q)
  {
    var w1 := word + sp.tokens[c];
    forall i | 0 <= i < |q| ensures |w1 + Spell(sp.tokens, q[..i])| <= sp.maxLen {
      SpellAfter(sp.tokens, word, c, q, i + 1);
    }
    forall i | 0 < i < |q| ensures ContainsPrefix(sp.dict, w1 + Spell(sp.tokens, q[..i])) {
      SpellAfter(sp.tokens, word, c, q, i + 1);
    }
  }

  /** The tail of a trail is a trail that starts on a bordering cell and avoids the first cell. */
  lemma TrailUnconsLinked(sp: SearchSpace, path: seq<int>)
    requires IsTrail(sp, path) && |path| > 1
    ensures IsTrail(sp, path[1..]) && path[1] in sp.bordering[path[0]]
    ensures forall i :: 0 <= i < |path| - 1 ==> path[1..][i] != path[0]
  {
    var q := path[1..];
    forall i | 0 <= i < |q| - 1 ensures q[i + 1] in sp.bordering[q[i]] {
      assert q[i] == path[i + 1] && q[i + 1] == path[i + 2];
    }
    forall i, j | 0 <= i < j < |q| ensures q[i] != q[j] {
      assert q[i] == path[i + 1] && q[j] == path[j + 1];
    }
    forall i | 0 <= i < |q| ensures q[i] != path[0] {
      assert q[i] == path[i + 1];
    }
  }

  /** Taking the first cell off a path the search follows from `c`. */
  lemma TrailUncons(sp: SearchSpace, c: int, word: string, used: seq<bool>, path: seq<int>, w: string)
    requires WellFormed(sp) && |used| == |sp.tokens| && 0 <= c < |sp.tokens|
    requires FoundAlong(sp, [c], word, used, path, w) && |path| > 1
    ensures ContainsPrefix(sp.dict, word + sp.tokens[c])
    ensures FoundAlong(sp, sp.bordering[c], word + sp.tokens[c], used[c := true], path[1..], w)
  {
    var q := path[1..];
    assert path == [c] + q;
    assert path[..1] == [c];
    SpellSingle(sp.tokens, c);
    assert ContainsPrefix(sp.dict, word + Spell(sp.tokens, path[..1]));
    SpellCons(sp.tokens, c, q, |q| + 1);
    assert q[..|q|] == q && path[..|q| + 1] == path;
    TrailUnconsPursued(sp, c, word, q);
    TrailUnconsLinked(sp, path);
    forall i | 0 <= i < |q| ensures !used[c := true][q[i]] {
      assert q[i] == path[i + 1];
    }
  }

  /** Every word of one call is found along some path the call explores. */
  lemma {:induction false} FromCellsSound(sp: SearchSpace, cells: seq<int>, word: string, used: seq<bool>, w: string)
    requires WellFormed(sp) && |used| == |sp.tokens| && CellsIn(cells, |sp.tokens|)
    requires w in FromCells(sp, cells, word, used)
    ensures exists path :: FoundAlong(sp, cells, word, used, path, w)
    decreases FalseCount(used), |cells|
  {
    var c := cells[0];
    if w in FromCell(sp, c, word, used) {
      FromCellSound(sp, c, word, used, w);
      var path :| FoundAlong(sp, [c], word, used, path, w);
      assert FoundAlong(sp, cells, word, used, path, w);
    } else {
      FromCellsSound(sp, cells[1..], word, used, w);
      var path :| FoundAlong(sp, cells[1..], word, used, path, w);
      assert FoundAlong(sp, cells, word, used, path, w);
    }
  }

  lemma {:induction false} FromCellSound(sp: SearchSpace, c: int, word: string, used: seq<bool>, w: string)
    requires WellFormed(sp) && |used| == |sp.tokens| && 0 <= c < |sp.tokens|
    requires |word| <= sp.maxLen && w in FromCell(sp, c, word, used)
    ensures exists path :: FoundAlong(sp, [c], word, used, path, w)
    decreases FalseCount(used), 0
  {
    var w1 := word + sp.tokens[c];
    if w == w1 && Contains(sp.dict, w1) {
      var path := [c];
      assert path[1..] == [] && path[..0] == [];
      assert Spell(sp.tokens, path) == sp.tokens[c] + "";
      assert FoundAlong(sp, [c], word, used, path, w);
    } else {
      FalseCountMark(used, c);
      FromCellsSound(sp, sp.bordering[c], w1, used[c := true], w);
      var q :| FoundAlong(sp, sp.bordering[c], w1, used[c := true], q, w);
      TrailCons(sp, c, word, used, q, w);
    }
  }

  /** Every path a call explores that ends on a word contains accepts yields that word. */
  lemma {:induction false} FromCellsComplete(sp: SearchSpace, cells: seq<int>, word: string, used: seq<bool>,
                                             path: seq<int>, w: string)
    requires WellFormed(sp) && |used| == |sp.tokens| && CellsIn(cells, |sp.tokens|)
    requires FoundAlong(sp, cells, word, used, path, w)
    ensures w in FromCells(sp, cells, word, used)
    decreases FalseCount(used), |cells|
  {
    assert path[..0] == [];
    assert |word| <= sp.maxLen by {
      assert |word + Spell(sp.tokens, path[..0])| <= sp.maxLen;
    }
    if path[0] == cells[0] {
      assert FoundAlong(sp, [cells[0]], word, used, path, w);
      FromCellComplete(sp, cells[0], word, used, path, w);
    } else {
      assert path[0] in cells[1..];
      FromCellsComplete(sp, cells[1..], word, used, path, w);
    }
  }

  lemma {:induction false} FromCellComplete(sp: SearchSpace, c: int, word: string, used: seq<bool>,
                                            path: seq<int>, w: string)
    requires WellFormed(sp) && |used| == |sp.tokens| && 0 <= c < |sp.tokens|
    requires FoundAlong(sp, [c], word, used, path, w)
    ensures w in FromCell(sp, c, word, used)
    decreases FalseCount(used), 0
  {
    if |path| == 1 {
      assert path == [c];
      SpellSingle(sp.tokens, c);
    } else {
      TrailUncons(sp, c, word, used, path, w);
      FalseCountMark(used, c);
      FromCellsComplete(sp, sp.bordering[c], word + sp.tokens[c], used[c := true], path[1..], w);
    }
  }

  lemma {:induction false} SpellSplit(tokens: seq<string>, path: seq<int>, i: int)
    requires CellsIn(path, |tokens|) && 0 <= i <= |path|
    ensures Spell(tokens, path) == Spell(tokens, path[..i]) + Spell(tokens, path[i..])
  {
    if i == 0 {
      assert path[..0] == [] && path[0..] == path;
    } else {
      SpellSplit(tokens, path[1..], i - 1);
      assert path[1..][..i - 1] == path[..i][1..];
      assert path[1..][i - 1..] == path[i..];
    }
  }

  // ---------------------------------------------------------------------------------------------
  // The whole grid

  function AllCells(n: nat): (r: seq<int>)
    ensures |r| == n && CellsIn(r, n)
    ensures forall k :: 0 <= k < n ==> r[k] == k
  {
    seq(n, i => i)
  }

  function NoneUsed(n: nat): (r: seq<bool>)
    ensures |r| == n && forall k :: 0 <= k < n ==> !r[k]
  {
    seq(n, _ => false)
  }

  /** The set getWordsInGrid returns: the search from every cell, with an empty word and no cell used. */
  ghost function WordsInGrid(sp: SearchSpace): (r: set<string>)
    requires WellFormed(sp)
  {
    FromCells(sp, AllCells(|sp.tokens|), "", NoneUsed(|sp.tokens|))
  }

  /** `path` spells `w`, contains accepts `w`, and the search follows `path` from an empty word. */
  ghost predicate Spelled(sp: SearchSpace, path: seq<int>, w: string)
  {
    IsTrail(sp, path) && |path| > 0 && w == Spell(sp.tokens, path) &&
    Contains(sp.dict, w) && Pursued(sp, "", path)
  }

  /** The words of the grid are exactly the words spelled along trails the search follows. */
  lemma WordsInGridPaths(sp: SearchSpace, w: string)
    requires WellFormed(sp)
    ensures w in WordsInGrid(sp) <==> exists path :: Spelled(sp, path, w)
  {
    var n := |sp.tokens|;
    var cells := AllCells(n);
    var none := NoneUsed(n);
    if w in WordsInGrid(sp) {
      FromCellsSound(sp, cells, "", none, w);
      var path :| FoundAlong(sp, cells, "", none, path, w);
      assert "" + Spell(sp.tokens, path) == Spell(sp.tokens, path);
      assert Spelled(sp, path, w);
    }
    if exists path :: Spelled(sp, path, w) {
      var path :| Spelled(sp, path, w);
      assert cells[path[0]] == path[0];
      assert "" + Spell(sp.tokens, path) == Spell(sp.tokens, path);
      assert FoundAlong(sp, cells, "", none, path, w);
      FromCellsComplete(sp, cells, "", none, path, w);
    }
  }

  /**
   * A word the search reports is in the dictionary, and is at most one token longer than the cap:
   * the cap is tested before a tile is added, not after.
   */
  lemma GridWordsSound(sp: SearchSpace, w: string, path: seq<int>)
    requires WellFormed(sp) && Spelled(sp, path, w)
    ensures Sorted(sp.dict) ==> Encode(w) in sp.dict
    ensures |Spell(sp.tokens, path[..|path| - 1])| <= sp.maxLen
    ensures |w| <= sp.maxLen + |sp.tokens[path[|path| - 1]]|
  {
    var k := |path| - 1;
    assert "" + Spell(sp.tokens, path[..k]) == Spell(sp.tokens, path[..k]);
    SpellSplit(sp.tokens, path, k);
    assert path[k..] == [path[k]];
    SpellSingle(sp.tokens, path[k]);
  }

  /**
   * Conversely, every dictionary word spelled along a trail is reported, provided the partial
   * word before each tile is within the cap.
   */
  lemma GridWordsComplete(sp: SearchSpace, path: seq<int>)
    requires WellFormed(sp) && Sorted(sp.dict) && IsTrail(sp, path) && |path| > 0
    requires Encode(Spell(sp.tokens, path)) in sp.dict && AllRepresentable(Spell(sp.tokens, path))
    requires forall i :: 0 <= i < |path| ==> |Spell(sp.tokens, path[..i])| <= sp.maxLen
    ensures Spell(sp.tokens, path) in WordsInGrid(sp)
  {
    var w := Spell(sp.tokens, path);
    ContainsExact(sp.dict, w);
    forall i | 0 <= i < |path| ensures |"" + Spell(sp.tokens, path[..i])| <= sp.maxLen {
      assert "" + Spell(sp.tokens, path[..i]) == Spell(sp.tokens, path[..i]);
    }
    forall i | 0 < i < |path| ensures ContainsPrefix(sp.dict, "" + Spell(sp.tokens, path[..i])) {
      var p := Spell(sp.tokens, path[..i]);
      SpellSplit(sp.tokens, path, i);
      assert w[..|p|] == p;
      PrefixOfMember(sp.dict, w, |p|);
      assert "" + p == p;
    }
    assert Spelled(sp, path, w);
    WordsInGridPaths(sp, w);
  }

  /** With an empty dictionary the search finds nothing. */
  lemma EmptyDictionaryFindsNothing(sp: SearchSpace)
    requires WellFormed(sp) && sp.dict == []
    ensures WordsInGrid(sp) == {}
  {
    forall w | w in WordsInGrid(sp) ensures false {
      WordsInGridPaths(sp, w);
    }
  }

  /** A word longer than the cap is still reported when only its last tile crosses the cap. */
  lemma LastTileCrossesCap()
    ensures "AB" in WordsInGrid(SearchSpace(["A", "B"], [[1], [0]], [[65, 66]], 1))
  {
    var sp := SearchSpace(["A", "B"], [[1], [0]], [[65, 66]], 1);
    var path := [0, 1];
    assert path[1..] == [1] && path[..0] == [] && path[..1] == [0];
    SpellSingle(sp.tokens, 0);
    SpellSingle(sp.tokens, 1);
    assert Spell(sp.tokens, path) == "AB";
    assert Encode("AB") == [65, 66];
    assert Sorted(sp.dict);
    GridWordsComplete(sp, path);
  }

  lemma NeighboursInGrid(columns: nat, rows: nat, a: int)
    requires 0 <= a < columns * rows
    ensures CellsIn(Neighbours(columns, rows, a), columns * rows)
  {
    assert columns > 0;
    var r := Neighbours(columns, rows, a);
    forall k | 0 <= k < |r| ensures 0 <= r[k] < columns * rows {
      NeighboursExact(columns, rows, a);
      assert r[k] in r;
    }
  }

  /** The tokens the constructor stores: each letter upper-cased. */
  function GridTokens(letters: seq<string>): (r: seq<string>)
    ensures |r| == |letters| && forall a :: 0 <= a < |letters| ==> r[a] == UpperCase(letters[a])
  {
    seq(|letters|, a requires 0 <= a < |letters| => UpperCase(letters[a]))
  }

  /** The bordering lists the constructor stores for the first `n` cells. */
  function GridBordering(columns: nat, rows: nat, n: nat): (r: seq<seq<int>>)
    requires n <= columns * rows
    ensures |r| == n && forall a :: 0 <= a < n ==> r[a] == Neighbours(columns, rows, a)
  {
    if n == 0 then [] else
    assert columns > 0;
    seq(n, a requires 0 <= a < n => Neighbours(columns, rows, a))
  }

  /** What a freshly built grid searches, for a given dictionary. */
  ghost function GridSpace(letters: seq<string>, columns: nat, rows: nat, dict: seq<Bytes>): (sp: SearchSpace)
    requires |letters| == columns * rows
    ensures WellFormed(sp)
  {
    assert forall a :: 0 <= a < |letters| ==> CellsIn(GridBordering(columns, rows, |letters|)[a], |letters|) by {
      forall a | 0 <= a < |letters| ensures CellsIn(GridBordering(columns, rows, |letters|)[a], |letters|) {
        NeighboursInGrid(columns, rows, a);
      }
    }
    SearchSpace(GridTokens(letters), GridBordering(columns, rows, |letters|), dict, DEFAULT_MAX_WORD_LENGTH)
  }

  // ---------------------------------------------------------------------------------------------
  // The grid object

  class LetterGrid {
    /** The upper-cased string of each cell, in row-major order. */
    var tokens: seq<string>
    /** The bordering cells of each cell, in the order of the direction table. */
    var bordering: seq<seq<int>>
    /** The mark each cell carries while the search runs through it. */
    var used: array<bool>
    var maxWordLength: int

    ghost predicate Valid()
      reads this
    {
      |tokens| == |bordering| == used.Length &&
      forall a :: 0 <= a < |bordering| ==> CellsIn(bordering[a], |tokens|)
    }

    /** No cell is marked: the state between searches. */
    ghost predicate Idle()
      reads this, used
    {
      forall k :: 0 <= k < used.Length ==> !used[k]
    }

    ghost function Space(dict: seq<Bytes>): (sp: SearchSpace)
      reads this
      requires Valid()
      ensures WellFormed(sp)
    {
      SearchSpace(tokens, bordering, dict, maxWordLength)
    }

    /** Builds the cells from `letters` and links each cell to the cells around it. */
    constructor (letters: seq<string>, columns: nat, rows: nat)
      requires |letters| == columns * rows
      ensures Valid() && Idle() && fresh(used)
      ensures tokens == GridTokens(letters) && bordering == GridBordering(columns, rows, |letters|)
      ensures maxWordLength == DEFAULT_MAX_WORD_LENGTH
      ensures forall d :: Space(d) == GridSpace(letters, columns, rows, d)
    {
      var n := |letters|;
      var grid: seq<string> := [];
      for i := 0 to n
        invariant |grid| == i && forall a :: 0 <= a < i ==> grid[a] == UpperCase(letters[a])
      {
        grid := grid + [UpperCase(letters[i])];
      }
      var links: seq<seq<int>> := [];
      for i := 0 to n
        invariant |links| == i
        invariant forall a :: 0 <= a < i ==> links[a] == Neighbours(columns, rows, a)
      {
        var cellLinks := LinkCell(columns, rows, i);
        links := links + [cellLinks];
      }
      forall a | 0 <= a < n ensures CellsIn(links[a], n) {
        NeighboursInGrid(columns, rows, a);
      }
      assert grid == GridTokens(letters);
      assert links == GridBordering(columns, rows, n);
      tokens := grid;
      bordering := links;
      used := new bool[n](_ => false);
      maxWordLength := DEFAULT_MAX_WORD_LENGTH;
    }

    /** The inner loop of the constructor: the bordering list of cell `i`. */
    static method LinkCell(columns: nat, rows: nat, i: nat) returns (links: seq<int>)
      requires i < columns * rows
      ensures links == Neighbours(columns, rows, i)
    {
      assert columns > 0;
      var directions := [-(columns as int), columns, -1, 1, -(columns as int) - 1,
                         -(columns as int) + 1, columns - 1, columns + 1];
      links := [];
      for j := 0 to 8
        invariant links == NeighboursUpTo(columns, rows, i, j)
      {
        var row := i / columns;
        var col := i % columns;
        assert directions[j] == Direction(columns, j);
        if col == 0 && (j == 2 || j == 4 || j == 6) {
          continue;
        }
        if col == columns - 1 && (j == 3 || j == 5 || j == 7) {
          continue;
        }
        if row == 0 && (j == 0 || j == 4 || j == 5) {
          continue;
        }
        if row == rows - 1 && (j == 1 || j == 6 || j == 7) {
          continue;
        }
        links := links + [i + directions[j]];
      }
    }

    /** The factory the game uses: no grid when the letter count does not fill the grid. */
    static method Create(letters: seq<string>, columns: nat, rows: nat) returns (grid: Option<LetterGrid>)
      ensures grid.None? <==> |letters| != columns * rows
      ensures grid.Some? ==> fresh(grid.value) && fresh(grid.value.used) &&
                             grid.value.Valid() && grid.value.Idle()
      ensures grid.Some? ==> grid.value.tokens == GridTokens(letters) &&
                             grid.value.bordering == GridBordering(columns, rows, |letters|) &&
                             grid.value.maxWordLength == DEFAULT_MAX_WORD_LENGTH
      ensures grid.Some? ==> forall d :: grid.value.Space(d) == GridSpace(letters, columns, rows, d)
    {
      if |letters| != columns * rows {
        return None;
      }
      var g := new LetterGrid(letters, columns, rows);
      return Some(g);
    }

    method SetMaxWordLength(length: int)
      modifies this`maxWordLength
      ensures maxWordLength == length
    {
      maxWordLength := length;
    }

    /**
     * The depth-first search from `cells`, adding to `words` what it finds; each cell entered is
     * marked and unmarked again on the way back, so the marks end as they started.
     */
    method IterateWordsRecursive(cells: seq<int>, dict: Dictionary, word: string, words: set<string>)
      returns (found: set<string>)
      requires Valid() && CellsIn(cells, |tokens|)
      modifies used
      ensures used[..] == old(used[..])
      ensures found == words + FromCells(Space(dict.wordList), cells, word, old(used[..]))
      decreases FalseCount(used[..]), 1
    {
      found := words;
      ghost var sp := Space(dict.wordList);
      ghost var marks := used[..];
      if |word| > maxWordLength {
        return;
      }
      for i := 0 to |cells|
        invariant used[..] == marks
        invariant found + FromCells(sp, cells[i..], word, marks) == words + FromCells(sp, cells, word, marks)
      {
        assert cells[i..][1..] == cells[i + 1..];
        found := VisitCell(cells[i], dict, word, found);
      }
      assert cells[|cells|..] == [];
    }

    /**
     * One pass of the search loop, for cell `current`: an unused cell adds the extended word if
     * contains accepts it and, if containsPrefix accepts it, the words found through its bordering
     * cells while it is marked used.
     */
    method VisitCell(current: int, dict: Dictionary, word: string, words: set<string>)
      returns (found: set<string>)
      requires Valid() && 0 <= current < |tokens|
      modifies used
      ensures used[..] == old(used[..])
      ensures found == words + FromCell(Space(dict.wordList), current, word, old(used[..]))
      decreases FalseCount(used[..]), 0
    {
      found := words;
      ghost var marks := used[..];
      if !used[current] {
        var candidate := word + tokens[current];
        if Contains(dict.wordList, candidate) {
          found := found + {candidate};
        }
        if ContainsPrefix(dict.wordList, candidate) {
          used[current] := true;
          FalseCountMark(marks, current);
          assert used[..] == marks[current := true];
          found := IterateWordsRecursive(bordering[current], dict, candidate, found);
          used[current] := false;
          assert used[..] == marks;
        }
      }
    }

    /** Every dictionary word the grid spells, as a set. */
    method GetWordsInGrid(dict: Dictionary) returns (words: set<string>)
      requires Valid() && Idle()
      modifies used
      ensures Idle() && used[..] == old(used[..])
      ensures words == WordsInGrid(Space(dict.wordList))
    {
      assert used[..] == NoneUsed(used.Length);
      words := IterateWordsRecursive(AllCells(|tokens|), dict, "", {});
    }

    method GetWordCountInGrid(dict: Dictionary) returns (count: int)
      requires Valid() && Idle()
      modifies used
      ensures Idle() && used[..] == old(used[..])
      ensures count == |WordsInGrid(Space(dict.wordList))|
    {
      var words := GetWordsInGrid(dict);
      count := |words|;
    }
  }
}
