/**
 * The game-state operations of Battleship.py on a mutable board: an
 * `array2<int>` that the methods update in place, each tied to the value
 * model of GameBoard, Placement and Shots through `Cells`.
 */
module Battleship {
  import opened GameBoard
  import opened Placement
  import opened Shots

  /** The game's configuration. */
  const BoardSize: nat := 7
  const ShipSizes: seq<nat> := [5, 4, 3, 3, 2]

  /** The board's contents as a value, row by row. */
  ghost function Cells(a: array2<int>): (g: Grid)
    reads a
    ensures |g| == a.Length0
    ensures forall r :: 0 <= r < |g| ==> |g[r]| == a.Length1
    ensures forall r, c :: 0 <= r < a.Length0 && 0 <= c < a.Length1 ==> g[r][c] == a[r, c]
  {
    seq(a.Length0, r requires 0 <= r < a.Length0 reads a =>
      seq(a.Length1, c requires 0 <= c < a.Length1 reads a => a[r, c]))
  }

  /** Two boards of the same shape and contents are the same value. */
  lemma CellsAre(a: array2<int>, h: Grid)
    requires |h| == a.Length0 && forall r :: 0 <= r < |h| ==> |h[r]| == a.Length1
    requires forall r, c :: 0 <= r < a.Length0 && 0 <= c < a.Length1 ==> h[r][c] == a[r, c]
    ensures Cells(a) == h
  {
    var g := Cells(a);
    forall r | 0 <= r < |h| ensures g[r] == h[r] {
    }
  }

  /** `create_board`: a new square board of side `n`, every cell empty. */
  method CreateBoard(n: nat) returns (a: array2<int>)
    ensures fresh(a)
    ensures a.Length0 == n && a.Length1 == n
    ensures Cells(a) == EmptyGrid(n)
  {
    a := new int[n, n];
    for r := 0 to n
      invariant forall i, j :: 0 <= i < r && 0 <= j < n ==> a[i, j] == Empty
    {
      for c := 0 to n
        invariant forall i, j :: 0 <= i < r && 0 <= j < n ==> a[i, j] == Empty
        invariant forall j :: 0 <= j < c ==> a[r, j] == Empty
      {
        a[r, c] := Empty;
      }
    }
    CellsAre(a, EmptyGrid(n));
  }

  /**
   * The validity check of `place_ships`: walk the run cell by cell and stop
   * at the first cell that is off the board or not empty.
   */
  method IsValidPlacement(a: array2<int>, size: nat, d: Attempt) returns (valid: bool)
    requires a.Length0 == a.Length1 && DrawInRange(d, a.Length0)
    ensures valid == ValidPlacement(Cells(a), size, d)
  {
    var n := a.Length0;
    valid := true;
    var i := 0;
    while i < size
      invariant 0 <= i <= size
      invariant forall r, c :: InRun(d, i, r, c) ==> 0 <= r < n && 0 <= c < n && a[r, c] == Empty
    {
      if d.horizontal {
        if d.col + i >= n || a[d.row, d.col + i] != Empty {
          RunCellInRun(d, size, i);
          valid := false;
          break;
        }
      } else {
        if d.row + i >= n || a[d.row + i, d.col] != Empty {
          RunCellInRun(d, size, i);
          valid := false;
          break;
        }
      }
      i := i + 1;
    }
  }

  /** The write of `place_ships`: a ship cell at each cell of the run, in order. */
  method PlaceOne(a: array2<int>, size: nat, d: Attempt)
    requires ValidPlacement(Cells(a), size, d)
    modifies a
    ensures Cells(a) == PlaceRun(old(Cells(a)), size, d)
  {
    ghost var g := Cells(a);
    for i := 0 to size
      invariant forall r, c :: 0 <= r < a.Length0 && 0 <= c < a.Length1 ==>
        a[r, c] == if InRun(d, i, r, c) then Ship else g[r][c]
    {
      RunCellInRun(d, size, i);
      if d.horizontal {
        a[d.row, d.col + i] := Ship;
      } else {
        a[d.row + i, d.col] := Ship;
      }
    }
    CellsAre(a, PlaceRun(g, size, d));
  }

  /**
   * `place_ships` over the supplied draws: for each size, draws are consumed
   * until one is valid and that ship is written. Returns how many ships were
   * placed; fewer than `|sizes|` only when the draws ran out.
   */
  method PlaceShips(a: array2<int>, sizes: seq<nat>, draws: seq<Attempt>) returns (placed: nat)
    requires a.Length0 == a.Length1
    requires forall d :: d in draws ==> DrawInRange(d, a.Length0)
    modifies a
    ensures placed == |PlaceAll(old(Cells(a)), sizes, draws).ships|
    ensures Cells(a) == PlaceAll(old(Cells(a)), sizes, draws).grid
  {
    ghost var goal := PlaceAll(Cells(a), sizes, draws);
    placed := 0;
    var used := 0;
    while placed < |sizes|
      invariant placed <= |sizes| && used <= |draws|
      invariant goal.grid == PlaceAll(Cells(a), sizes[placed..], draws[used..]).grid
      invariant |goal.ships| == placed + |PlaceAll(Cells(a), sizes[placed..], draws[used..]).ships|
    {
      var found := false;
      while used < |draws|
        invariant used <= |draws|
        invariant goal.grid == PlaceAll(Cells(a), sizes[placed..], draws[used..]).grid
        invariant |goal.ships| == placed + |PlaceAll(Cells(a), sizes[placed..], draws[used..]).ships|
        decreases |draws| - used
      {
        var d := draws[used];
        ghost var before := Cells(a);
        assert sizes[placed..][1..] == sizes[placed + 1..];
        assert draws[used..][1..] == draws[used + 1..];
        used := used + 1;
        var valid := IsValidPlacement(a, sizes[placed], d);
        if valid {
          PlaceOne(a, sizes[placed], d);
          found := true;
          break;
        }
      }
      if !found {
        // The draws ran out; the game itself would go on drawing.
        return;
      }
      placed := placed + 1;
    }
  }

  /**
   * `create_board` followed by `place_ships`, as the game starts: the ship
   * cells are exactly those of the placed ships.
   */
  method NewGame(n: nat, sizes: seq<nat>, draws: seq<Attempt>) returns (a: array2<int>, placed: nat)
    requires forall d :: d in draws ==> DrawInRange(d, n)
    ensures fresh(a) && a.Length0 == n && a.Length1 == n
    ensures Cells(a) == PlaceAll(EmptyGrid(n), sizes, draws).grid
    ensures placed == |PlaceAll(EmptyGrid(n), sizes, draws).ships|
    ensures Count(Cells(a), Ship) == Sum(sizes[..placed])
  {
    a := CreateBoard(n);
    placed := PlaceShips(a, sizes, draws);
    NewBoardShipCells(n, sizes, draws);
  }

  /**
   * With the game's own configuration, a start in which all five ships were
   * placed leaves 17 ship cells on the 49-cell board.
   */
  lemma DefaultGameShipCells(draws: seq<Attempt>)
    ensures var p := PlaceAll(EmptyGrid(BoardSize), ShipSizes, draws);
      |p.ships| == |ShipSizes| ==> Count(p.grid, Ship) == 17 < BoardSize * BoardSize
  {
    NewBoardShipCells(BoardSize, ShipSizes, draws);
    assert Sum(ShipSizes) == 17 by {
      assert ShipSizes[1..][1..][1..][1..][1..] == [];
    }
  }

  /** `check_win`: scan the rows and report whether no ship cell is left. */
  method CheckWin(a: array2<int>) returns (won: bool)
    ensures won == NoShipLeft(Cells(a))
  {
    for r := 0 to a.Length0
      invariant forall i, j :: 0 <= i < r && 0 <= j < a.Length1 ==> a[i, j] != Ship
    {
      for c := 0 to a.Length1
        invariant forall j :: 0 <= j < c ==> a[r, j] != Ship
      {
        if a[r, c] == Ship {
          assert InBounds(Cells(a), r, c);
          return false;
        }
      }
    }
    return true;
  }

  /**
   * One shot of the game loop: mark the cell, and only after a hit consult
   * the win check. The game is won exactly when the shot hit the last ship cell.
   */
  method ResolveShot(a: array2<int>, row: int, col: int) returns (hit: bool, won: bool)
    requires 0 <= row < a.Length0 && 0 <= col < a.Length1
    modifies a
    ensures hit == (old(a[row, col]) == Ship)
    ensures Cells(a) == Shot(old(Cells(a)), row, col)
    ensures won == (hit && NoShipLeft(Cells(a)))
    ensures won <==> hit && old(Count(Cells(a), Ship)) == 1
  {
    ghost var g := Cells(a);
    if a[row, col] == Ship {
      a[row, col] := Hit;
      CellsAre(a, Shot(g, row, col));
      hit := true;
      won := CheckWin(a);
    } else {
      a[row, col] := Miss;
      CellsAre(a, Shot(g, row, col));
      hit, won := false, false;
    }
    WinningShot(g, row, col);
    NoShipLeftIffZeroCount(g);
    assert InBounds(g, row, col);
  }
}
