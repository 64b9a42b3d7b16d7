/**
 * The percolation grid: an n-by-n table of cells, each locked, open or
 * full, with a count of the cells opened so far.  A cell is full when a
 * chain of open cells joins it to the bottom row; opening a cell next to
 * a full one (or in the bottom row) fills it and then, with an explicit
 * stack, every open cell it reaches.  The system percolates when a cell of
 * the top row is full.
 *
 * The pure part states the grid as a map from sites to cells; the class
 * keeps the table as a two-dimensional array and is proved against that
 * map.
 */
module Percolation {

  datatype Cell = Lock | Open | Full

  /** A position in the table: row 0 is the top, row n - 1 the bottom. */
  datatype Site = Site(row: int, column: int)

  type Grid = map<Site, Cell>

  /** Orthogonal neighbours. */
  predicate Adjacent(a: Site, b: Site) {
    || (a.row == b.row && (a.column + 1 == b.column || b.column + 1 == a.column))
    || (a.column == b.column && (a.row + 1 == b.row || b.row + 1 == a.row))
  }

  ghost predicate Shape(g: Grid, n: int) {
    forall s :: s in g <==> 0 <= s.row < n && 0 <= s.column < n
  }

  /** All sites of an n-by-n table. */
  ghost function Sites(n: nat): (r: set<Site>)
    ensures forall s :: s in r <==> 0 <= s.row < n && 0 <= s.column < n
  {
    var r := set i, j | 0 <= i < n && 0 <= j < n :: Site(i, j);
    assert forall s: Site | 0 <= s.row < n && 0 <= s.column < n :: s in r by {
      forall s: Site | 0 <= s.row < n && 0 <= s.column < n ensures s in r {
        assert s == Site(s.row, s.column);
      }
    }
    r
  }

  /** The cells that are not locked: those `open_cells` counts. */
  ghost function Opened(g: Grid): set<Site> {
    set s | s in g && g[s] != Lock
  }

  /** The cells that are open but not yet full. */
  ghost function OpenOnly(g: Grid): set<Site> {
    set s | s in g && g[s] == Open
  }

  /** A cell either keeps its state or goes from open to full. */
  predicate Grows(x: Cell, y: Cell) {
    x == y || (x == Open && y == Full)
  }

  /** g only turns open cells of g0 full. */
  ghost predicate FillOnly(g0: Grid, g: Grid) {
    && (forall s :: s in g0 <==> s in g)
    && (forall s | s in g0 :: Grows(g0[s], g[s]))
  }

  /** No open cell has a full neighbour. */
  ghost predicate Closed(g: Grid) {
    forall a, b | a in g && b in g && Adjacent(a, b) && g[a] == Full :: g[b] != Open
  }

  /** No cell of the bottom row is open without being full. */
  ghost predicate BottomNotOpen(g: Grid, n: int) {
    forall s | s in g && s.row == n - 1 :: g[s] != Open
  }

  /** Each cell of `filled` is in the bottom row or next to a cell listed
      before it, the one `parent` names. */
  ghost predicate Supported(filled: seq<Site>, parent: seq<int>, n: int) {
    && |parent| == |filled|
    && forall k {:trigger parent[k]} | 0 <= k < |filled| ::
         filled[k].row == n - 1 || (0 <= parent[k] < k && Adjacent(filled[parent[k]], filled[k]))
  }

  /** `filled` lists exactly the full cells. */
  ghost predicate Listed(g: Grid, filled: seq<Site>) {
    && (forall s | s in g :: g[s] == Full <==> s in filled)
    && (forall k | 0 <= k < |filled| :: filled[k] in g)
  }

  /** The state the grid keeps between calls. */
  ghost predicate Consistent(g: Grid, n: int, count: int, filled: seq<Site>, parent: seq<int>) {
    && Shape(g, n)
    && count == |Opened(g)|
    && Closed(g)
    && BottomNotOpen(g, n)
    && Supported(filled, parent, n)
    && Listed(g, filled)
  }

  predicate FullAt(g: Grid, s: Site) {
    s in g && g[s] == Full
  }

  /** The test `open` makes before it fills a fresh cell: bottom row, or a
      full neighbour below, right, above or left. */
  predicate Fed(g: Grid, n: int, s: Site) {
    || s.row == n - 1
    || FullAt(g, Site(s.row + 1, s.column))
    || FullAt(g, Site(s.row, s.column + 1))
    || FullAt(g, Site(s.row - 1, s.column))
    || FullAt(g, Site(s.row, s.column - 1))
  }

  /** Whether a cell is fed does not depend on the cell itself. */
  lemma FedIgnoresSelf(g: Grid, n: int, s: Site, x: Cell)
    ensures Fed(g[s := x], n, s) == Fed(g, n, s)
  {
    assert Site(s.row + 1, s.column) != s && Site(s.row, s.column + 1) != s;
    assert Site(s.row - 1, s.column) != s && Site(s.row, s.column - 1) != s;
  }

  function Keep(g: Grid, b: Site): seq<Site> {
    if b in g && g[b] == Open then [b] else []
  }

  /** The open neighbours of s, in the order the flood fill pushes them. */
  function OpenNeighbours(g: Grid, s: Site): seq<Site> {
    Keep(g, Site(s.row + 1, s.column)) + Keep(g, Site(s.row, s.column + 1))
      + Keep(g, Site(s.row - 1, s.column)) + Keep(g, Site(s.row, s.column - 1))
  }

  /** The pushed cells are exactly the open neighbours. */
  lemma Neighbours(g: Grid, s: Site)
    ensures forall b :: b in OpenNeighbours(g, s) <==> b in g && Adjacent(s, b) && g[b] == Open
  {
  }

  /** A chain of unlocked neighbouring cells ending in the bottom row. */
  ghost predicate Connects(g: Grid, n: int, path: seq<Site>) {
    && |path| > 0
    && path[|path| - 1].row == n - 1
    && (forall i | 0 <= i < |path| :: path[i] in g && g[path[i]] != Lock)
    && (forall i | 0 <= i < |path| - 1 :: Adjacent(path[i], path[i + 1]))
  }

  /** Some cell of the top row is joined to the bottom row. */
  ghost predicate Percolates(g: Grid, n: int) {
    exists path: seq<Site> :: Connects(g, n, path) && path[0].row == 0
  }

  // ---------------------------------------------------------------------
  // What the invariant means

  /** Every full cell is joined to the bottom row by full cells. */
  lemma Reaches(g: Grid, n: int, filled: seq<Site>, parent: seq<int>, k: int) returns (path: seq<Site>)
    requires Supported(filled, parent, n) && Listed(g, filled)
    requires 0 <= k < |filled|
    ensures Connects(g, n, path) && path[0] == filled[k]
    decreases k
  {
    if filled[k].row == n - 1 {
      path := [filled[k]];
    } else {
      var rest := Reaches(g, n, filled, parent, parent[k]);
      path := [filled[k]] + rest;
      assert forall i | 0 < i < |path| :: path[i] == rest[i - 1];
    }
  }

  /** Every cell joined to the bottom row by unlocked cells is full. */
  lemma {:induction false} Drains(g: Grid, n: int, path: seq<Site>)
    requires Closed(g) && BottomNotOpen(g, n) && Connects(g, n, path)
    ensures g[path[0]] == Full
    decreases |path|
  {
    if |path| > 1 {
      var rest := path[1..];
      assert Connects(g, n, rest) by {
        assert forall i | 0 <= i < |rest| :: rest[i] == path[i + 1];
      }
      Drains(g, n, rest);
      assert Adjacent(path[1], path[0]);
    }
  }

  /** A cell is full exactly when a chain of unlocked cells joins it to the
      bottom row. */
  lemma FullIffConnected(g: Grid, n: int, count: int, filled: seq<Site>, parent: seq<int>, s: Site)
    requires Consistent(g, n, count, filled, parent) && s in g
    ensures g[s] == Full <==> exists path :: Connects(g, n, path) && path[0] == s
  {
    if g[s] == Full {
      var k :| 0 <= k < |filled| && filled[k] == s;
      var path := Reaches(g, n, filled, parent, k);
    }
    forall path | Connects(g, n, path) && path[0] == s ensures g[s] == Full {
      Drains(g, n, path);
    }
  }

  /** The system percolates exactly when a cell of the top row is full. */
  lemma PercolatesIffTopFull(g: Grid, n: int, count: int, filled: seq<Site>, parent: seq<int>)
    requires Consistent(g, n, count, filled, parent)
    ensures Percolates(g, n) <==> exists j | 0 <= j < n :: g[Site(0, j)] == Full
  {
    if j :| 0 <= j < n && g[Site(0, j)] == Full {
      FullIffConnected(g, n, count, filled, parent, Site(0, j));
    }
    if Percolates(g, n) {
      var path: seq<Site> :| Connects(g, n, path) && path[0].row == 0;
      Drains(g, n, path);
      assert path[0] == Site(0, path[0].column);
    }
  }

  /** A table of locked cells is a consistent empty grid. */
  lemma AllLocked(g: Grid, n: int)
    requires Shape(g, n) && forall s | s in g :: g[s] == Lock
    ensures Consistent(g, n, 0, [], [])
  {
    assert Opened(g) == {};
  }

  // ---------------------------------------------------------------------
  // Counting

  /** Unlocking a locked cell adds it to the opened cells. */
  lemma UnlockCount(g: Grid, s: Site, x: Cell)
    requires s in g && g[s] == Lock && x != Lock
    ensures |Opened(g[s := x])| == |Opened(g)| + 1
  {
    assert Opened(g[s := x]) == Opened(g) + {s};
  }

  /** Filling open cells leaves the opened cells as they were. */
  lemma FillOnlyOpened(g0: Grid, g: Grid)
    requires FillOnly(g0, g)
    ensures Opened(g) == Opened(g0)
  {
    assert forall s | s in g0 :: (g[s] != Lock <==> g0[s] != Lock);
  }

  /** Filling an open cell removes it from the open-only cells. */
  lemma FillShrinks(g: Grid, s: Site)
    requires s in g && g[s] == Open
    ensures |OpenOnly(g[s := Full])| < |OpenOnly(g)|
  {
    assert OpenOnly(g[s := Full]) == OpenOnly(g) - {s};
  }

  // ---------------------------------------------------------------------
  // Opening a locked cell

  /** Opening a cell that is not fed keeps the grid consistent. */
  lemma UnlockStarved(g: Grid, n: int, count: int, filled: seq<Site>, parent: seq<int>, s: Site)
    requires Consistent(g, n, count, filled, parent) && s in g && g[s] == Lock
    requires !Fed(g, n, s)
    ensures Consistent(g[s := Open], n, count + 1, filled, parent)
  {
    UnlockCount(g, s, Open);
    forall a | a in g && Adjacent(a, s) ensures g[a] != Full {
      assert a == Site(s.row + 1, s.column) || a == Site(s.row, s.column + 1)
        || a == Site(s.row - 1, s.column) || a == Site(s.row, s.column - 1);
    }
  }

  /** Opening a fed cell fills it; the fill starts from there. */
  lemma UnlockFed(g: Grid, n: int, count: int, filled: seq<Site>, parent: seq<int>, s: Site) returns (k: int)
    requires Consistent(g, n, count, filled, parent) && s in g && g[s] == Lock
    requires Fed(g, n, s)
    ensures Supported(filled + [s], parent + [k], n)
    ensures Listed(g[s := Full], filled + [s])
    ensures count + 1 == |Opened(g[s := Full])|
    ensures Shape(g[s := Full], n) && BottomNotOpen(g[s := Full], n) && Frontier(g[s := Full], [s])
  {
    var g' := g[s := Full];
    UnlockCount(g, s, Full);
    k := -1;
    if s.row != n - 1 {
      var b := if FullAt(g, Site(s.row + 1, s.column)) then Site(s.row + 1, s.column)
        else if FullAt(g, Site(s.row, s.column + 1)) then Site(s.row, s.column + 1)
        else if FullAt(g, Site(s.row - 1, s.column)) then Site(s.row - 1, s.column)
        else Site(s.row, s.column - 1);
      assert b in filled;
      k :| 0 <= k < |filled| && filled[k] == b;
    }
    var f := filled + [s];
    forall j | 0 <= j < |f| ensures f[j].row == n - 1 || (0 <= (parent + [k])[j] < j && Adjacent(f[(parent + [k])[j]], f[j])) {
      if j < |filled| {
        assert f[j] == filled[j] && (parent + [k])[j] == parent[j];
        if filled[j].row != n - 1 {
          assert f[parent[j]] == filled[parent[j]];
        }
      }
    }
    assert s !in filled;
    forall c | c in g' ensures g'[c] == Full <==> c in f {
      if c != s {
        assert c in f <==> c in filled;
      }
    }
  }

  // ---------------------------------------------------------------------
  // The flood fill

  /** Every open cell next to a full cell is on the stack, or the full
      cell is. */
  ghost predicate Frontier(g: Grid, stack: seq<Site>) {
    forall a, b | a in g && b in g && Adjacent(a, b) && g[a] == Full && g[b] == Open ::
      a in stack || b in stack
  }

  /** Each full cell on the stack has its open neighbours above it. */
  ghost predicate Above(g: Grid, stack: seq<Site>) {
    forall k, b | 0 <= k < |stack| && stack[k] in g && g[stack[k]] == Full && b in g && Adjacent(stack[k], b) && g[b] == Open ::
      b in stack[k + 1..]
  }

  /** Each stacked cell is unlocked, and full or next to the full cell
      `via` names. */
  ghost predicate Stacked(g: Grid, stack: seq<Site>, via: seq<int>, filled: seq<Site>) {
    && |via| == |stack|
    && forall k {:trigger stack[k]} | 0 <= k < |stack| ::
         && stack[k] in g && g[stack[k]] != Lock
         && (g[stack[k]] == Full || (0 <= via[k] < |filled| && Adjacent(filled[via[k]], stack[k])))
  }

  lemma FrontierStep(g: Grid, stack: seq<Site>, s: Site)
    requires Frontier(g, stack) && stack != [] && s == stack[|stack| - 1] && s in g
    ensures Frontier(g[s := Full], stack[..|stack| - 1] + OpenNeighbours(g[s := Full], s))
  {
    var g', rest := g[s := Full], stack[..|stack| - 1];
    var pushed := OpenNeighbours(g', s);
    Neighbours(g', s);
    forall a, b | a in g' && b in g' && Adjacent(a, b) && g'[a] == Full && g'[b] == Open
      ensures a in rest + pushed || b in rest + pushed
    {
      if a == s {
        assert b in pushed;
      } else {
        assert stack == rest + [s];
        assert a in rest || b in rest;
      }
    }
  }

  lemma AboveStep(g: Grid, stack: seq<Site>, s: Site, first: bool)
    requires stack != [] && s == stack[|stack| - 1] && s in g
    requires first ==> stack == [s]
    requires !first ==> Above(g, stack)
    ensures Above(g[s := Full], stack[..|stack| - 1] + OpenNeighbours(g[s := Full], s))
  {
    var g', rest := g[s := Full], stack[..|stack| - 1];
    var pushed := OpenNeighbours(g', s);
    Neighbours(g', s);
    var next := rest + pushed;
    assert forall k | |rest| <= k < |next| :: next[k] in pushed;
    forall k, b | 0 <= k < |rest| && next[k] in g' && g'[next[k]] == Full && b in g' && Adjacent(next[k], b) && g'[b] == Open
      ensures b in next[k + 1..]
    {
      assert next[k] == stack[k];
      assert next[k + 1..] == rest[k + 1..] + pushed;
      if stack[k] == s {
        assert b in pushed;
      } else {
        AboveKeeps(g, stack, k, b);
        assert rest[k + 1..] == stack[k + 1..|stack| - 1];
      }
    }
  }

  /** An open neighbour of a full stacked cell other than the top is still
      above it once the top is popped. */
  lemma AboveKeeps(g: Grid, stack: seq<Site>, k: int, b: Site)
    requires Above(g, stack) && 0 <= k < |stack| - 1
    requires stack[k] in g && g[stack[k]] == Full && b in g && Adjacent(stack[k], b) && g[b] == Open
    requires b != stack[|stack| - 1]
    ensures b in stack[k + 1..|stack| - 1]
  {
    assert b in stack[k + 1..];
    assert stack[k + 1..] == stack[k + 1..|stack| - 1] + [stack[|stack| - 1]];
  }

  lemma StackedStep(g: Grid, stack: seq<Site>, via: seq<int>, filled: seq<Site>, filled': seq<Site>, s: Site, ix: int)
    requires Stacked(g, stack, via, filled) && stack != [] && s == stack[|stack| - 1]
    requires filled <= filled' && 0 <= ix < |filled'| && filled'[ix] == s
    ensures var pushed := OpenNeighbours(g[s := Full], s);
      Stacked(g[s := Full], stack[..|stack| - 1] + pushed, via[..|via| - 1] + seq(|pushed|, _ => ix), filled')
  {
    var g', rest := g[s := Full], stack[..|stack| - 1];
    var pushed := OpenNeighbours(g', s);
    Neighbours(g', s);
    var next, via' := rest + pushed, via[..|via| - 1] + seq(|pushed|, _ => ix);
    forall k | 0 <= k < |next|
      ensures next[k] in g' && g'[next[k]] != Lock
      ensures g'[next[k]] == Full || (0 <= via'[k] < |filled'| && Adjacent(filled'[via'[k]], next[k]))
    {
      if k < |rest| {
        assert next[k] == stack[k] && via'[k] == via[k];
        if g'[next[k]] != Full {
          assert filled'[via[k]] == filled[via[k]];
        }
      } else {
        assert next[k] == pushed[k - |rest|] && via'[k] == ix;
        assert next[k] in pushed;
      }
    }
  }

  /** Filling the popped cell records it, with the cell it was pushed
      from, when it was open. */
  lemma SupportStep(g: Grid, n: int, filled: seq<Site>, parent: seq<int>, stack: seq<Site>, via: seq<int>)
    requires Supported(filled, parent, n) && Listed(g, filled) && Stacked(g, stack, via, filled)
    requires stack != [] && g[stack[|stack| - 1]] == Open
    ensures var s := stack[|stack| - 1];
      Supported(filled + [s], parent + [via[|via| - 1]], n) && Listed(g[s := Full], filled + [s])
  {
    var s := stack[|stack| - 1];
    var f, p := filled + [s], parent + [via[|via| - 1]];
    forall j | 0 <= j < |f| ensures f[j].row == n - 1 || (0 <= p[j] < j && Adjacent(f[p[j]], f[j])) {
      if j < |filled| {
        assert f[j] == filled[j] && p[j] == parent[j];
        if filled[j].row != n - 1 {
          assert f[parent[j]] == filled[parent[j]];
        }
      } else {
        assert f[via[|via| - 1]] == filled[via[|via| - 1]];
      }
    }
    assert s !in filled;
    var g' := g[s := Full];
    forall c | c in g' ensures g'[c] == Full <==> c in f {
      if c != s {
        assert c in f <==> c in filled;
      }
    }
  }

  /** A full cell on top of the stack, after the first round, has no open
      neighbour to push. */
  lemma NothingToPush(g: Grid, stack: seq<Site>, s: Site)
    requires Above(g, stack) && stack != [] && s == stack[|stack| - 1] && s in g && g[s] == Full
    ensures OpenNeighbours(g, s) == []
  {
    var pushed := OpenNeighbours(g, s);
    Neighbours(g, s);
    forall b | b in g && Adjacent(s, b) ensures g[b] != Open {
      assert stack[|stack| - 1 + 1..] == [];
    }
    assert forall b :: b !in pushed;
  }

  /** The state of the flood fill between two rounds. */
  ghost predicate Flooding(g: Grid, n: int, stack: seq<Site>, via: seq<int>, filled: seq<Site>, parent: seq<int>, first: bool, start: Site) {
    && Stacked(g, stack, via, filled)
    && Supported(filled, parent, n) && Listed(g, filled)
    && BottomNotOpen(g, n) && Frontier(g, stack)
    && (first ==> stack == [start] && start in g && g[start] == Full)
    && (!first ==> Above(g, stack))
  }

  /** What each round of the flood fill decreases: an open cell that
      fills pays for the at most four cells it pushes, the first round
      for the neighbours of the starting cell. */
  ghost function Rank(g: Grid, stack: seq<Site>, first: bool): nat {
    5 * |OpenOnly(g)| + |stack| + if first then 5 else 0
  }

  /** One round of the flood fill: the popped cell is filled and its open
      neighbours pushed.  The state is kept, and the round makes progress:
      an open cell fills, or the first round ends, or the stack shrinks. */
  lemma Step(g0: Grid, g: Grid, n: int, stack: seq<Site>, via: seq<int>, filled: seq<Site>, parent: seq<int>, first: bool, start: Site)
    returns (filled': seq<Site>, parent': seq<int>, ix: int)
    requires Flooding(g, n, stack, via, filled, parent, first, start) && stack != []
    requires FillOnly(g0, g)
    ensures var s := stack[|stack| - 1];
      var g' := g[s := Full];
      var pushed := OpenNeighbours(g', s);
      && FillOnly(g0, g')
      && Flooding(g', n, stack[..|stack| - 1] + pushed, via[..|via| - 1] + seq(|pushed|, _ => ix), filled', parent', false, start)
      && Rank(g', stack[..|stack| - 1] + pushed, false) < Rank(g, stack, first)
  {
    var s := stack[|stack| - 1];
    FillStep(g0, g, s);
    FrontierStep(g, stack, s);
    AboveStep(g, stack, s, first);
    if g[s] == Open {
      FillShrinks(g, s);
      SupportStep(g, n, filled, parent, stack, via);
      filled', parent' := filled + [s], parent + [via[|via| - 1]];
      ix := |filled|;
    } else {
      assert g[s := Full] == g;
      if !first {
        NothingToPush(g, stack, s);
      }
      filled', parent' := filled, parent;
      ix :| 0 <= ix < |filled| && filled[ix] == s;
    }
    StackedStep(g, stack, via, filled, filled', s, ix);
  }

  /** Filling a stacked cell only turns an open cell full. */
  lemma FillStep(g0: Grid, g: Grid, s: Site)
    requires FillOnly(g0, g) && s in g && g[s] != Lock
    ensures FillOnly(g0, g[s := Full])
  {
  }

  /** The flood fill starts from a full cell alone on the stack. */
  lemma Begin(g: Grid, n: int, filled: seq<Site>, parent: seq<int>, start: Site)
    requires Supported(filled, parent, n) && Listed(g, filled)
    requires BottomNotOpen(g, n) && Frontier(g, [start])
    requires start in g && g[start] == Full
    ensures Flooding(g, n, [start], [0], filled, parent, true, start)
  {
  }

  /** Once the stack is empty the filled grid is consistent again. */
  lemma Settled(g0: Grid, g: Grid, n: int, count: int, filled: seq<Site>, parent: seq<int>, via: seq<int>, first: bool, start: Site)
    requires Flooding(g, n, [], via, filled, parent, first, start) && FillOnly(g0, g)
    requires Shape(g0, n) && count == |Opened(g0)|
    ensures Consistent(g, n, count, filled, parent)
  {
    FillOnlyOpened(g0, g);
  }

  // ---------------------------------------------------------------------
  // The grid

  class Percolation {
    const dimension: nat
    var table: array2<Cell>
    var open_cells: nat
    /** The full cells in the order they filled, and for each the index of
        the neighbour it filled from. */
    ghost var filled: seq<Site>
    ghost var parent: seq<int>

    ghost predicate Sized()
      reads this`table
    {
      table.Length0 == dimension && table.Length1 == dimension
    }

    /** The table as a map from sites to cells. */
    ghost function Snapshot(): (g: Grid)
      reads this`table, table
      requires Sized()
      ensures Shape(g, dimension)
      ensures forall s | s in g :: g[s] == table[s.row, s.column]
    {
      map s | s in Sites(dimension) :: table[s.row, s.column]
    }

    ghost predicate Valid()
      reads this, table
    {
      Sized() && Consistent(Snapshot(), dimension, open_cells, filled, parent)
    }

    /** A table of locked cells. */
    constructor(dimension2: nat)
      ensures dimension == dimension2 && Valid() && open_cells == 0 && fresh(table)
      ensures forall s | s in Snapshot() :: Snapshot()[s] == Lock
    {
      dimension := dimension2;
      open_cells := 0;
      table := new Cell[dimension2, dimension2]((_, _) => Lock);
      filled, parent := [], [];
      new;
      AllLocked(Snapshot(), dimension);
    }

    /** Every cell locked again, nothing counted. */
    method Clean()
      requires Sized()
      modifies this
      ensures Valid() && open_cells == 0 && fresh(table)
      ensures forall s | s in Snapshot() :: Snapshot()[s] == Lock
    {
      open_cells := 0;
      table := new Cell[dimension, dimension]((_, _) => Lock);
      filled, parent := [], [];
      AllLocked(Snapshot(), dimension);
    }

    /** Whether a cell has been opened. */
    function IsOpen(row: nat, column: nat): (b: bool)
      reads this, table
      requires Sized() && row < dimension && column < dimension
      ensures b <==> Site(row, column) in Opened(Snapshot())
    {
      table[row, column] != Lock
    }

    /** Whether a cell is full; a full cell is open. */
    function IsFull(row: nat, column: nat): (b: bool)
      reads this, table
      requires Sized() && row < dimension && column < dimension
      ensures b <==> FullAt(Snapshot(), Site(row, column))
      ensures b ==> IsOpen(row, column)
    {
      table[row, column] == Full
    }

    /** A cell is full exactly when unlocked cells join it to the bottom
        row. */
    lemma FullMeansConnected(row: nat, column: nat)
      requires Valid() && row < dimension && column < dimension
      ensures IsFull(row, column) <==> exists path :: Connects(Snapshot(), dimension, path) && path[0] == Site(row, column)
    {
      FullIffConnected(Snapshot(), dimension, open_cells, filled, parent, Site(row, column));
    }

    /** The number of cells opened so far. */
    function NumberOfOpenCells(): (r: nat)
      reads this, table
      requires Valid()
      ensures r == |Opened(Snapshot())|
    {
      open_cells
    }

    /** Whether some cell of the top row is full, which is whether the
        system percolates. */
    method HasPercolation() returns (b: bool)
      requires Valid()
      ensures b <==> exists j | 0 <= j < dimension :: Snapshot()[Site(0, j)] == Full
      ensures b <==> Percolates(Snapshot(), dimension)
    {
      ghost var g := Snapshot();
      PercolatesIffTopFull(g, dimension, open_cells, filled, parent);
      b := false;
      for i := 0 to dimension
        invariant !b ==> forall j | 0 <= j < i :: g[Site(0, j)] != Full
        invariant b ==> exists j | 0 <= j < dimension :: g[Site(0, j)] == Full
      {
        assert g[Site(0, i)] == table[0, i];
        if !b && table[0, i] == Full {
          b := true;
        }
      }
    }

    /** Opens a cell.  A locked cell is counted, and filled when it is in
        the bottom row or has a full neighbour; from a filled cell the
        fill spreads to every open cell it reaches.  A cell already open
        changes nothing. */
    method Open(row: nat, column: nat)
      requires Valid() && row < dimension && column < dimension
      modifies this, table
      ensures Valid() && table == old(table)
      ensures old(Snapshot())[Site(row, column)] != Lock ==>
        Snapshot() == old(Snapshot()) && open_cells == old(open_cells)
      ensures old(Snapshot())[Site(row, column)] == Lock ==>
        && open_cells == old(open_cells) + 1
        && Snapshot()[Site(row, column)] != Lock
        && (Snapshot()[Site(row, column)] == Full <==> Fed(old(Snapshot()), dimension, Site(row, column)))
      ensures forall s | s in old(Snapshot()) && s != Site(row, column) :: Grows(old(Snapshot())[s], Snapshot()[s])
    {
      if table[row, column] == Lock {
        OpenLocked(row, column);
      }
    }

    /** Opens a locked cell: counts it, fills it when it is fed, and
        spreads the fill from there. */
    method OpenLocked(row: nat, column: nat)
      requires Valid() && row < dimension && column < dimension
      requires Snapshot()[Site(row, column)] == Lock
      modifies this, table
      ensures Valid() && table == old(table)
      ensures open_cells == old(open_cells) + 1
      ensures Snapshot()[Site(row, column)] != Lock
      ensures Snapshot()[Site(row, column)] == Full <==> Fed(old(Snapshot()), dimension, Site(row, column))
      ensures forall s | s in old(Snapshot()) && s != Site(row, column) :: Grows(old(Snapshot())[s], Snapshot()[s])
    {
      ghost var g, count := Snapshot(), open_cells;
      ghost var here := Site(row, column);
      ghost var fed := Fed(g, dimension, here);
      Unlock(row, column);
      assert Snapshot() == g[here := if fed then Full else Cell.Open];
      if IsFull(row, column) {
        assert fed && Snapshot() == g[here := Full];
        ghost var k := UnlockFed(g, dimension, count, filled, parent, here);
        filled, parent := filled + [here], parent + [k];
        Flood(row, column);
      } else {
        UnlockStarved(g, dimension, count, filled, parent, here);
      }
    }

    /** Stores one cell of the table. */
    method Write(row: int, column: int, x: Cell)
      requires Sized() && 0 <= row < dimension && 0 <= column < dimension
      modifies table
      ensures Snapshot() == old(Snapshot())[Site(row, column) := x]
    {
      ghost var g := Snapshot();
      table[row, column] := x;
      ghost var h := Snapshot();
      assert forall s | s in h :: h[s] == g[Site(row, column) := x][s];
    }

    /** Counts a locked cell and opens it, full when it is in the bottom
        row or has a full neighbour. */
    method Unlock(row: nat, column: nat)
      requires Sized() && row < dimension && column < dimension
      modifies this`open_cells, table
      ensures open_cells == old(open_cells) + 1
      ensures Snapshot() == old(Snapshot())[Site(row, column) :=
        if Fed(old(Snapshot()), dimension, Site(row, column)) then Full else Cell.Open]
    {
      ghost var g := Snapshot();
      open_cells := open_cells + 1;
      Write(row, column, Cell.Open);
      FedIgnoresSelf(g, dimension, Site(row, column), Cell.Open);
      var fed := Feeds(row, column);
      if fed {
        Write(row, column, Full);
      }
    }

    /** Whether a cell is in the bottom row or has a full neighbour below,
        right, above or left. */
    method Feeds(row: nat, column: nat) returns (b: bool)
      requires Sized() && row < dimension && column < dimension
      ensures b == Fed(Snapshot(), dimension, Site(row, column))
    {
      b := || row == dimension - 1
           || (row + 1 < dimension && IsFull(row + 1, column))
           || (column + 1 < dimension && IsFull(row, column + 1))
           || (row != 0 && IsFull(row - 1, column))
           || (column != 0 && IsFull(row, column - 1));
    }

    /** Fills a cell and returns its open neighbours, as the flood fill
        pushes them. */
    method Fill(row: int, column: int) returns (pushed: seq<Site>)
      requires Sized() && 0 <= row < dimension && 0 <= column < dimension
      modifies table
      ensures Snapshot() == old(Snapshot())[Site(row, column) := Full]
      ensures pushed == OpenNeighbours(Snapshot(), Site(row, column))
    {
      Write(row, column, Full);
      pushed := Pushes(row, column);
    }

    /** The open neighbours of a cell, below, right, above and left. */
    method Pushes(row: int, column: int) returns (pushed: seq<Site>)
      requires Sized() && 0 <= row < dimension && 0 <= column < dimension
      ensures pushed == OpenNeighbours(Snapshot(), Site(row, column))
    {
      ghost var g := Snapshot();
      pushed := [];
      if row + 1 < dimension && table[row + 1, column] == Cell.Open {
        pushed := pushed + [Site(row + 1, column)];
      }
      assert pushed == Keep(g, Site(row + 1, column));
      if column + 1 < dimension && table[row, column + 1] == Cell.Open {
        pushed := pushed + [Site(row, column + 1)];
      }
      assert pushed == Keep(g, Site(row + 1, column)) + Keep(g, Site(row, column + 1));
      if row != 0 && table[row - 1, column] == Cell.Open {
        pushed := pushed + [Site(row - 1, column)];
      }
      assert pushed == Keep(g, Site(row + 1, column)) + Keep(g, Site(row, column + 1)) + Keep(g, Site(row - 1, column));
      if column != 0 && table[row, column - 1] == Cell.Open {
        pushed := pushed + [Site(row, column - 1)];
      }
    }

    /** Spreads the fill from a full cell to every open cell it reaches. */
    method Flood(row: nat, column: nat)
      requires Sized() && row < dimension && column < dimension
      requires Snapshot()[Site(row, column)] == Full
      requires open_cells == |Opened(Snapshot())|
      requires Supported(filled, parent, dimension) && Listed(Snapshot(), filled)
      requires BottomNotOpen(Snapshot(), dimension) && Frontier(Snapshot(), [Site(row, column)])
      modifies this`filled, this`parent, table
      ensures Valid()
      ensures FillOnly(old(Snapshot()), Snapshot())
    {
      ghost var g0 := Snapshot();
      ghost var g := g0;
      ghost var start := Site(row, column);
      var stack := [Site(row, column)];
      ghost var via := [0];
      ghost var first := true;
      Begin(g, dimension, filled, parent, start);
      while stack != []
        invariant Sized() && g == Snapshot()
        invariant FillOnly(g0, g)
        invariant Flooding(g, dimension, stack, via, filled, parent, first, start)
        decreases Rank(g, stack, first)
      {
        stack, g, via := Round(stack, g0, g, via, first, start);
        first := false;
      }
      Settled(g0, g, dimension, open_cells, filled, parent, via, first, start);
    }

    /** One round of the flood fill: pops the top cell, fills it and pushes
        its open neighbours. */
    method Round(stack: seq<Site>, ghost g0: Grid, ghost g: Grid, ghost via: seq<int>, ghost first: bool, ghost start: Site)
      returns (stack': seq<Site>, ghost g': Grid, ghost via': seq<int>)
      requires Sized() && g == Snapshot() && stack != []
      requires FillOnly(g0, g) && Flooding(g, dimension, stack, via, filled, parent, first, start)
      modifies this`filled, this`parent, table
      ensures g' == Snapshot() && FillOnly(g0, g')
      ensures Flooding(g', dimension, stack', via', filled, parent, false, start)
      ensures Rank(g', stack', false) < Rank(g, stack, first)
    {
      var top := stack[|stack| - 1];
      ghost var filled', parent', ix := Step(g0, g, dimension, stack, via, filled, parent, first, start);
      assert Site(top.row, top.column) == top;
      g' := g[top := Full];
      var pushed := Fill(top.row, top.column);
      filled, parent := filled', parent';
      stack' := stack[..|stack| - 1] + pushed;
      via' := via[..|via| - 1] + seq(|pushed|, _ => ix);
    }
  }

  /** A client of the class: on a 2 by 2 grid, opening the bottom cell of
      the first column and then the top one fills both, so the system
      percolates. */
  method OpenColumn() returns (b: bool)
    ensures b
  {
    var grid := new Percolation(2);
    grid.Open(1, 0);
    grid.Open(0, 0);
    b := grid.HasPercolation();
  }
}
