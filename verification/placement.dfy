/**
 * Ship placement of Battleship.py (`place_ships`) as a function of the board
 * and of the sequence of random draws, so that rejection sampling becomes a
 * deterministic walk over the draws.
 */
module Placement {
  import opened GameBoard

  /** One round of `random.randint` draws: an anchor cell and an orientation. */
  datatype Attempt = Attempt(row: int, col: int, horizontal: bool)

  /** The draws lie on the board, as `random.randint(0, BOARD_SIZE - 1)` guarantees. */
  predicate DrawInRange(d: Attempt, n: nat)
  {
    0 <= d.row < n && 0 <= d.col < n
  }

  /** Row and column of the `i`-th cell of the run anchored at `d`. */
  function RunRow(d: Attempt, i: int): int
  {
    if d.horizontal then d.row else d.row + i
  }

  function RunCol(d: Attempt, i: int): int
  {
    if d.horizontal then d.col + i else d.col
  }

  /** Cell (r, c) is one of the `size` cells of the run anchored at `d`. */
  predicate InRun(d: Attempt, size: nat, r: int, c: int)
  {
    if d.horizontal then r == d.row && d.col <= c < d.col + size
    else c == d.col && d.row <= r < d.row + size
  }

  lemma RunCellInRun(d: Attempt, size: nat, i: int)
    requires 0 <= i < size
    ensures InRun(d, size, RunRow(d, i), RunCol(d, i))
  {
  }

  /** The placement check: every cell of the run is on the board and empty. */
  ghost predicate ValidPlacement(g: Grid, size: nat, d: Attempt)
  {
    forall r, c :: InRun(d, size, r, c) ==> InBounds(g, r, c) && g[r][c] == Empty
  }

  /**
   * The board after writing a ship of `size` cells at `d`, one cell after
   * another: exactly the cells of the run hold a ship, every other cell is
   * as before.
   */
  ghost function PlaceRun(g: Grid, size: nat, d: Attempt): (h: Grid)
    requires ValidPlacement(g, size, d)
    ensures SameShape(g, h)
    ensures forall r, c :: InBounds(g, r, c) ==> h[r][c] == if InRun(d, size, r, c) then Ship else g[r][c]
    decreases size
  {
    if size == 0 then g
    else
      RunCellInRun(d, size, size - 1);
      Set(PlaceRun(g, size - 1, d), RunRow(d, size - 1), RunCol(d, size - 1), Ship)
  }

  /** The board after placement and the accepted anchor of each placed ship, in order. */
  datatype Layout = Layout(grid: Grid, ships: seq<Attempt>)

  /**
   * `place_ships` run on `draws`: for each size in turn, draws are tried until
   * one is a valid placement, which is then written. A rejected draw leaves
   * the board as it is. When the draws run out the remaining sizes stay
   * unplaced.
   */
  ghost function PlaceAll(g: Grid, sizes: seq<nat>, draws: seq<Attempt>): (p: Layout)
    ensures SameShape(g, p.grid)
    ensures |p.ships| <= |sizes|
    ensures forall d :: d in p.ships ==> d in draws
    decreases |draws|
  {
    if sizes == [] || draws == [] then Layout(g, [])
    else if ValidPlacement(g, sizes[0], draws[0]) then
      var rest := PlaceAll(PlaceRun(g, sizes[0], draws[0]), sizes[1..], draws[1..]);
      Layout(rest.grid, [draws[0]] + rest.ships)
    else
      PlaceAll(g, sizes, draws[1..])
  }

  /** A placed ship adds exactly its length to the number of ship cells. */
  lemma {:induction false} PlaceRunCount(g: Grid, size: nat, d: Attempt)
    requires ValidPlacement(g, size, d)
    ensures Count(PlaceRun(g, size, d), Ship) == Count(g, Ship) + size
    decreases size
  {
    if size > 0 {
      var h := PlaceRun(g, size - 1, d);
      RunCellInRun(d, size, size - 1);
      PlaceRunCount(g, size - 1, d);
      CountUpdate(h, RunRow(d, size - 1), RunCol(d, size - 1), Ship, Ship);
    }
  }

  /** Placement never overwrites: a cell either keeps its value or goes from empty to ship. */
  lemma {:induction false} PlaceAllOnlyFillsEmpty(g: Grid, sizes: seq<nat>, draws: seq<Attempt>)
    ensures forall r, c :: InBounds(g, r, c) ==>
      var h := PlaceAll(g, sizes, draws).grid;
      h[r][c] == g[r][c] || (g[r][c] == Empty && h[r][c] == Ship)
    decreases |draws|
  {
    if sizes == [] || draws == [] {
    } else if ValidPlacement(g, sizes[0], draws[0]) {
      PlaceAllOnlyFillsEmpty(PlaceRun(g, sizes[0], draws[0]), sizes[1..], draws[1..]);
    } else {
      PlaceAllOnlyFillsEmpty(g, sizes, draws[1..]);
    }
  }

  function Sum(s: seq<nat>): nat
  {
    if s == [] then 0 else s[0] + Sum(s[1..])
  }

  /** The ship cells grow by exactly the lengths of the ships placed. */
  lemma {:induction false} PlaceAllCount(g: Grid, sizes: seq<nat>, draws: seq<Attempt>)
    ensures var p := PlaceAll(g, sizes, draws);
      Count(p.grid, Ship) == Count(g, Ship) + Sum(sizes[..|p.ships|])
    decreases |draws|
  {
    if sizes == [] || draws == [] {
    } else if ValidPlacement(g, sizes[0], draws[0]) {
      var h := PlaceRun(g, sizes[0], draws[0]);
      var rest := PlaceAll(h, sizes[1..], draws[1..]);
      PlaceRunCount(g, sizes[0], draws[0]);
      PlaceAllCount(h, sizes[1..], draws[1..]);
      assert sizes[..|rest.ships| + 1][1..] == sizes[1..][..|rest.ships|];
    } else {
      PlaceAllCount(g, sizes, draws[1..]);
    }
  }

  /**
   * Every placed ship was a valid placement on the board it started from,
   * and all of its cells hold a ship afterwards.
   */
  lemma {:induction false} PlaceAllShipsValid(g: Grid, sizes: seq<nat>, draws: seq<Attempt>)
    ensures var p := PlaceAll(g, sizes, draws);
      forall k :: 0 <= k < |p.ships| ==>
        ValidPlacement(g, sizes[k], p.ships[k]) &&
        forall r, c :: InRun(p.ships[k], sizes[k], r, c) ==> p.grid[r][c] == Ship
    decreases |draws|
  {
    if sizes == [] || draws == [] {
    } else if ValidPlacement(g, sizes[0], draws[0]) {
      var h := PlaceRun(g, sizes[0], draws[0]);
      var p := PlaceAll(g, sizes, draws);
      var rest := PlaceAll(h, sizes[1..], draws[1..]);
      PlaceAllShipsValid(h, sizes[1..], draws[1..]);
      PlaceAllOnlyFillsEmpty(h, sizes[1..], draws[1..]);
      forall k | 0 <= k < |p.ships|
        ensures ValidPlacement(g, sizes[k], p.ships[k])
        ensures forall r, c :: InRun(p.ships[k], sizes[k], r, c) ==> p.grid[r][c] == Ship
      {
        if k > 0 {
          assert p.ships[k] == rest.ships[k - 1] && sizes[k] == sizes[1..][k - 1];
        }
      }
    } else {
      assert PlaceAll(g, sizes, draws) == PlaceAll(g, sizes, draws[1..]);
      PlaceAllShipsValid(g, sizes, draws[1..]);
    }
  }

  /** No two placed ships share a cell. */
  lemma {:induction false} PlaceAllDisjoint(g: Grid, sizes: seq<nat>, draws: seq<Attempt>)
    ensures var p := PlaceAll(g, sizes, draws);
      forall k1, k2, r, c :: 0 <= k1 < k2 < |p.ships| && InRun(p.ships[k1], sizes[k1], r, c) ==>
        !InRun(p.ships[k2], sizes[k2], r, c)
    decreases |draws|
  {
    if sizes == [] || draws == [] {
    } else if ValidPlacement(g, sizes[0], draws[0]) {
      var h := PlaceRun(g, sizes[0], draws[0]);
      var p := PlaceAll(g, sizes, draws);
      var rest := PlaceAll(h, sizes[1..], draws[1..]);
      PlaceAllDisjoint(h, sizes[1..], draws[1..]);
      PlaceAllShipsValid(h, sizes[1..], draws[1..]);
      forall k1, k2, r, c | 0 <= k1 < k2 < |p.ships| && InRun(p.ships[k1], sizes[k1], r, c)
        ensures !InRun(p.ships[k2], sizes[k2], r, c)
      {
        assert p.ships[k2] == rest.ships[k2 - 1] && sizes[k2] == sizes[1..][k2 - 1];
        if k1 > 0 {
          assert p.ships[k1] == rest.ships[k1 - 1] && sizes[k1] == sizes[1..][k1 - 1];
        }
      }
    } else {
      var p := PlaceAll(g, sizes, draws);
      assert p == PlaceAll(g, sizes, draws[1..]);
      PlaceAllDisjoint(g, sizes, draws[1..]);
      forall k1, k2, r, c | 0 <= k1 < k2 < |p.ships| && InRun(p.ships[k1], sizes[k1], r, c)
        ensures !InRun(p.ships[k2], sizes[k2], r, c)
      {
      }
    }
  }

  /** Placement keeps every cell within the four codes. */
  lemma PlaceAllKeepsCodes(g: Grid, sizes: seq<nat>, draws: seq<Attempt>)
    requires CellCodes(g)
    ensures CellCodes(PlaceAll(g, sizes, draws).grid)
  {
    PlaceAllOnlyFillsEmpty(g, sizes, draws);
  }

  /**
   * On a new board, the number of ship cells is the total length of the
   * ships placed, which is the total of all sizes when every ship was placed.
   */
  lemma NewBoardShipCells(n: nat, sizes: seq<nat>, draws: seq<Attempt>)
    ensures var p := PlaceAll(EmptyGrid(n), sizes, draws);
      Count(p.grid, Ship) == Sum(sizes[..|p.ships|]) &&
      (|p.ships| == |sizes| ==> Count(p.grid, Ship) == Sum(sizes))
  {
    EmptyGridFacts(n);
    PlaceAllCount(EmptyGrid(n), sizes, draws);
    assert sizes[..|sizes|] == sizes;
  }
}
