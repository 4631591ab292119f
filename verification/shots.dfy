/**
 * Shot resolution of Battleship.py (the block in `main` that marks the
 * clicked cell) and the win condition it feeds.
 */
module Shots {
  import opened GameBoard

  /**
   * The board after a shot at (r, c) as the game writes it: a ship segment
   * becomes a hit, every other value (including an earlier hit) becomes a miss.
   */
  function Shot(g: Grid, r: int, c: int): (h: Grid)
    requires InBounds(g, r, c)
    ensures SameShape(g, h)
    ensures h[r][c] == (if g[r][c] == Ship then Hit else Miss)
    ensures forall i, j :: InBounds(g, i, j) && (i != r || j != c) ==> h[i][j] == g[i][j]
  {
    Set(g, r, c, if g[r][c] == Ship then Hit else Miss)
  }

  /** A shot removes one ship cell if it hits and none otherwise, and keeps the four codes. */
  lemma ShotCounts(g: Grid, r: int, c: int)
    requires InBounds(g, r, c)
    ensures Count(Shot(g, r, c), Ship) == Count(g, Ship) - (if g[r][c] == Ship then 1 else 0)
    ensures CellCodes(g) ==> CellCodes(Shot(g, r, c))
  {
    CountUpdate(g, r, c, if g[r][c] == Ship then Hit else Miss, Ship);
  }

  /**
   * After a shot no ship is left exactly when none was left before, or the
   * shot hit the last remaining ship cell.
   */
  lemma WinningShot(g: Grid, r: int, c: int)
    requires InBounds(g, r, c)
    ensures NoShipLeft(Shot(g, r, c)) <==>
      Count(g, Ship) == 0 || (Count(g, Ship) == 1 && g[r][c] == Ship)
  {
    ShotCounts(g, r, c);
    NoShipLeftIffZeroCount(g);
    NoShipLeftIffZeroCount(Shot(g, r, c));
    if g[r][c] == Ship {
      assert !NoShipLeft(g);
    }
  }

  /** A step from `g` to `h` moves cells only from empty to miss or from ship to hit. */
  ghost predicate LegalStep(g: Grid, h: Grid)
  {
    SameShape(g, h) &&
    forall r, c :: InBounds(g, r, c) ==>
      h[r][c] == g[r][c] || (g[r][c] == Empty && h[r][c] == Miss) || (g[r][c] == Ship && h[r][c] == Hit)
  }

  /** As written, a shot is a legal step exactly when its cell is not already a hit. */
  lemma ShotLegalUnlessHit(g: Grid, r: int, c: int)
    requires InBounds(g, r, c) && CellCodes(g)
    ensures LegalStep(g, Shot(g, r, c)) <==> g[r][c] != Hit
  {
  }

  /** Shooting a hit cell again turns it into a miss and loses a hit. */
  lemma ReshotHitBecomesMiss(g: Grid, r: int, c: int)
    requires InBounds(g, r, c) && g[r][c] == Hit
    ensures Shot(g, r, c)[r][c] == Miss
    ensures Count(Shot(g, r, c), Hit) == Count(g, Hit) - 1
  {
    CountUpdate(g, r, c, Miss, Hit);
  }

  /** The shot as evidently intended: an already resolved cell is left as it is. */
  function ResolvedShot(g: Grid, r: int, c: int): (h: Grid)
    requires InBounds(g, r, c)
    ensures LegalStep(g, h)
  {
    if g[r][c] == Ship then Set(g, r, c, Hit)
    else if g[r][c] == Empty then Set(g, r, c, Miss)
    else g
  }

  /**
   * The intended shot agrees with the written one on cells not yet shot,
   * shooting twice is the same as shooting once, and it decides the win
   * in the same way.
   */
  lemma ResolvedShotFacts(g: Grid, r: int, c: int)
    requires InBounds(g, r, c)
    ensures g[r][c] == Empty || g[r][c] == Ship ==> ResolvedShot(g, r, c) == Shot(g, r, c)
    ensures ResolvedShot(ResolvedShot(g, r, c), r, c) == ResolvedShot(g, r, c)
    ensures Count(ResolvedShot(g, r, c), Ship) == Count(g, Ship) - (if g[r][c] == Ship then 1 else 0)
  {
    var h := ResolvedShot(g, r, c);
    if g[r][c] == Ship || g[r][c] == Empty {
      ShotCounts(g, r, c);
      assert h[r][c] == Hit || h[r][c] == Miss;
    }
  }
}
