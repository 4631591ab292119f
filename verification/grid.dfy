/**
 * The game board as a value: a grid of integer cell codes, stored row by row
 * (the list of lists that `create_board` in Battleship.py builds).
 */
module GameBoard {

  /** Cell codes of Battleship.py. */
  const Empty := 0
  const Ship := 1
  const Miss := 2
  const Hit := 3

  type Grid = seq<seq<int>>

  /** `g` has `n` rows of `n` cells each. */
  predicate Square(g: Grid, n: nat)
  {
    |g| == n && forall i :: 0 <= i < n ==> |g[i]| == n
  }

  predicate SameShape(g: Grid, h: Grid)
  {
    |g| == |h| && forall i :: 0 <= i < |g| ==> |g[i]| == |h[i]|
  }

  predicate InBounds(g: Grid, r: int, c: int)
  {
    0 <= r < |g| && 0 <= c < |g[r]|
  }

  /** Every cell holds one of the four codes. */
  ghost predicate CellCodes(g: Grid)
  {
    forall r, c :: InBounds(g, r, c) ==> Empty <= g[r][c] <= Hit
  }

  /** No cell still holds an intact ship segment. */
  ghost predicate NoShipLeft(g: Grid)
  {
    forall r, c :: InBounds(g, r, c) ==> g[r][c] != Ship
  }

  /** The board after the single write `board[r][c] = v`. */
  function Set(g: Grid, r: int, c: int, v: int): (h: Grid)
    requires InBounds(g, r, c)
    ensures SameShape(g, h)
    ensures h[r][c] == v
    ensures forall i, j :: InBounds(g, i, j) && (i != r || j != c) ==> h[i][j] == g[i][j]
  {
    g[r := g[r][c := v]]
  }

  /** A board of side `n` on which every cell is empty. */
  function EmptyGrid(n: nat): (g: Grid)
    ensures Square(g, n)
    ensures forall r, c :: InBounds(g, r, c) ==> g[r][c] == Empty
  {
    seq(n, _ => seq(n, _ => Empty))
  }

  /** Number of cells of a row holding `v`. */
  function CountRow(s: seq<int>, v: int): nat
  {
    if s == [] then 0 else (if s[0] == v then 1 else 0) + CountRow(s[1..], v)
  }

  /** Number of cells of the board holding `v`. */
  function Count(g: Grid, v: int): nat
  {
    if g == [] then 0 else CountRow(g[0], v) + Count(g[1..], v)
  }

  lemma {:induction false} CountRowUpdate(s: seq<int>, k: int, x: int, v: int)
    requires 0 <= k < |s|
    ensures CountRow(s[k := x], v) + (if s[k] == v then 1 else 0)
         == CountRow(s, v) + (if x == v then 1 else 0)
  {
    if k == 0 {
      assert s[k := x][1..] == s[1..];
    } else {
      assert s[k := x][1..] == s[1..][k - 1 := x];
      CountRowUpdate(s[1..], k - 1, x, v);
    }
  }

  /** A single write changes the count of `v` by what it removes and what it adds. */
  lemma {:induction false} CountUpdate(g: Grid, r: int, c: int, x: int, v: int)
    requires InBounds(g, r, c)
    ensures Count(Set(g, r, c, x), v) + (if g[r][c] == v then 1 else 0)
         == Count(g, v) + (if x == v then 1 else 0)
  {
    if r == 0 {
      assert Set(g, r, c, x)[1..] == g[1..];
      CountRowUpdate(g[0], c, x, v);
    } else {
      assert Set(g, r, c, x)[1..] == Set(g[1..], r - 1, c, x);
      CountUpdate(g[1..], r - 1, c, x, v);
    }
  }

  lemma {:induction false} CountRowZero(s: seq<int>, v: int)
    ensures CountRow(s, v) == 0 <==> forall j :: 0 <= j < |s| ==> s[j] != v
  {
    if s != [] {
      CountRowZero(s[1..], v);
      assert forall j :: 1 <= j < |s| ==> s[j] == s[1..][j - 1];
    }
  }

  /** The win condition holds exactly when no ship cell is counted. */
  lemma {:induction false} NoShipLeftIffZeroCount(g: Grid)
    ensures NoShipLeft(g) <==> Count(g, Ship) == 0
  {
    if g != [] {
      NoShipLeftIffZeroCount(g[1..]);
      CountRowZero(g[0], Ship);
      assert forall r, c :: 1 <= r < |g| && InBounds(g, r, c) ==> InBounds(g[1..], r - 1, c) && g[r][c] == g[1..][r - 1][c];
      if NoShipLeft(g[1..]) && CountRow(g[0], Ship) == 0 {
        forall r, c | InBounds(g, r, c) ensures g[r][c] != Ship {
          if r > 0 {
            assert InBounds(g[1..], r - 1, c);
          }
        }
      }
      if NoShipLeft(g) {
        forall r, c | InBounds(g[1..], r, c) ensures g[1..][r][c] != Ship {
          assert InBounds(g, r + 1, c);
        }
        forall c | 0 <= c < |g[0]| ensures g[0][c] != Ship {
          assert InBounds(g, 0, c);
        }
      }
    }
  }

  /** A freshly created board holds every code legally and has no ship on it. */
  lemma EmptyGridFacts(n: nat)
    ensures CellCodes(EmptyGrid(n))
    ensures Count(EmptyGrid(n), Ship) == 0
  {
    NoShipLeftIffZeroCount(EmptyGrid(n));
  }
}
