/**
 * The rules of a play on a ragged grid: square lookup (`get_square`), the
 * legality walk (`is_legal_play`), the effect of a play (`apply_play`) and the
 * solved test (`is_solved`), all as specification functions on grid values.
 */
module Rules {
  import opened Wrappers
  import opened Squares

  /** A play: origin, direction and the count copied from the origin square. */
  datatype Play = Play(x: int, y: int, dx: int, dy: int, count: nat)

  /**
   * `get_square`: any coordinate outside the grid, negative ones included,
   * gives no square.
   */
  function GetSquare(g: Grid, x: int, y: int): (r: Option<Square>)
    ensures r.Some? <==> 0 <= y < |g| && 0 <= x < |g[y]|
    ensures r.Some? ==> r.value == g[y][x]
  {
    if 0 <= y < |g| then (if 0 <= x < |g[y]| then Some(g[y][x]) else None) else None
  }

  predicate OnGrid(g: Grid, x: int, y: int) {
    0 <= y < |g| && 0 <= x < |g[y]|
  }

  /** The four directions a play may take. */
  predicate IsUnit(dx: int, dy: int) {
    ((dx == 1 || dx == -1) && dy == 0) || (dx == 0 && (dy == 1 || dy == -1))
  }

  /** The k-th square of the ray from a play's origin; the 0-th is the origin. */
  function RayX(p: Play, k: int): int {
    p.x + Scale(k, p.dx)
  }

  function RayY(p: Play, k: int): int {
    p.y + Scale(k, p.dy)
  }

  /** `k * d`, with the unit components a play uses written out. */
  function Scale(k: int, d: int): int {
    if d == 1 then k else if d == -1 then -k else if d == 0 then 0 else k * d
  }

  /** How many steps along the ray (x, y) would be, if it lies on the ray. */
  function RayIndex(p: Play, x: int, y: int): int {
    if p.dx == 1 then x - p.x
    else if p.dx == -1 then p.x - x
    else if p.dy == 1 then y - p.y
    else p.y - y
  }

  predicate EmptyAt(g: Grid, x: int, y: int) {
    GetSquare(g, x, y).Some? && GetSquare(g, x, y).value.state == Empty
  }

  /** A square the walk can pass: on the grid and not BLOCK. */
  predicate OpenAt(g: Grid, x: int, y: int) {
    GetSquare(g, x, y).Some? && GetSquare(g, x, y).value.state != Block
  }

  /** How many of the ray's squares 1..n are EMPTY. */
  function EmptiesIn(g: Grid, p: Play, n: int): nat
    decreases n
  {
    if n <= 0 then 0
    else EmptiesIn(g, p, n - 1) + (if EmptyAt(g, RayX(p, n), RayY(p, n)) then 1 else 0)
  }

  /** The ray's squares 1..n are all on the grid and none is BLOCK. */
  predicate ClearRun(g: Grid, p: Play, n: int) {
    forall k :: 1 <= k <= n ==> OpenAt(g, RayX(p, k), RayY(p, k))
  }

  predicate LegalWithin(g: Grid, p: Play, n: int) {
    ClearRun(g, p, n) && EmptiesIn(g, p, n) == p.count
  }

  /**
   * A legal play: walking from the square after the origin, the ray meets
   * `count` EMPTY squares before any BLOCK square or the edge of the grid;
   * FULL and PLAYABLE squares are passed over.
   */
  ghost predicate Legal(g: Grid, p: Play) {
    exists n :: LegalWithin(g, p, n)
  }

  lemma {:induction false} EmptiesMonotone(g: Grid, p: Play, i: int, j: int)
    requires i <= j
    ensures EmptiesIn(g, p, i) <= EmptiesIn(g, p, j)
    decreases j - i
  {
    if i < j {
      EmptiesMonotone(g, p, i, j - 1);
    }
  }

  /**
   * A walk that has met fewer than `count` EMPTY squares on a clear run and
   * then reaches a BLOCK square or the edge shows the play is illegal.
   */
  lemma NotLegalAtBlock(g: Grid, p: Play, k: int)
    requires 1 <= k
    requires ClearRun(g, p, k - 1) && EmptiesIn(g, p, k - 1) < p.count
    requires !OpenAt(g, RayX(p, k), RayY(p, k))
    ensures !Legal(g, p)
  {
    forall n
      ensures !LegalWithin(g, p, n)
    {
      if n <= k - 1 {
        EmptiesMonotone(g, p, n, k - 1);
      }
    }
  }

  /** Once the walk has met `count` EMPTY squares, any further square makes no difference. */
  lemma FullRunReach(g: Grid, p: Play, n: int, k: int)
    requires LegalWithin(g, p, n)
    requires EmptiesIn(g, p, k) < p.count
    ensures k < n && ClearRun(g, p, k + 1)
  {
    if n <= k {
      EmptiesMonotone(g, p, n, k);
    }
  }

  /** The widest row. */
  function MaxWidth(g: Grid): (w: nat)
    ensures forall y :: 0 <= y < |g| ==> |g[y]| <= w
  {
    if g == [] then 0
    else
      var w := MaxWidth(g[..|g| - 1]);
      if |g[|g| - 1]| > w then |g[|g| - 1]| else w
  }

  function Abs(i: int): nat {
    if i < 0 then -i else i
  }

  /** A unit-direction ray leaves the grid within a bounded number of steps. */
  function WalkBound(g: Grid, p: Play): nat {
    MaxWidth(g) + |g| + Abs(p.x) + Abs(p.y)
  }

  lemma RayLeavesGrid(g: Grid, p: Play, k: int)
    requires IsUnit(p.dx, p.dy)
    requires OnGrid(g, RayX(p, k), RayY(p, k))
    ensures k <= WalkBound(g, p)
  {
    assert |g[RayY(p, k)]| <= MaxWidth(g);
  }

  /** (x, y) is one of the ray's squares 1..n. */
  predicate OnRayWithin(p: Play, x: int, y: int, n: int) {
    var k := RayIndex(p, x, y);
    1 <= k <= n && x == RayX(p, k) && y == RayY(p, k)
  }

  /** (x, y) is one of the first `count` EMPTY squares along the ray of `p`. */
  predicate Fills(g: Grid, p: Play, x: int, y: int) {
    var k := RayIndex(p, x, y);
    && k >= 1
    && x == RayX(p, k) && y == RayY(p, k)
    && EmptyAt(g, x, y)
    && EmptiesIn(g, p, k) <= p.count
  }

  function AfterPlay(g: Grid, p: Play, x: int, y: int): Square
    requires OnGrid(g, x, y)
  {
    if (x == p.x && y == p.y) || Fills(g, p, x, y) then g[y][x].(state := Full) else g[y][x]
  }

  /**
   * The board after `apply_play`: the origin and the first `count` EMPTY
   * squares on the ray become FULL; nothing else changes.
   */
  function Applied(g: Grid, p: Play): (r: Grid)
    ensures |r| == |g|
    ensures forall y :: 0 <= y < |g| ==> |r[y]| == |g[y]|
    ensures forall y, x :: 0 <= y < |g| && 0 <= x < |g[y]| ==> r[y][x] == AfterPlay(g, p, x, y)
  {
    seq(|g|, y requires 0 <= y < |g| =>
      seq(|g[y]|, x requires 0 <= x < |g[y]| => AfterPlay(g, p, x, y)))
  }

  /** Two grids of the same shape that agree square by square are equal. */
  lemma GridExtensionality(a: Grid, b: Grid)
    requires |a| == |b|
    requires forall y :: 0 <= y < |a| ==> |a[y]| == |b[y]|
    requires forall y, x :: 0 <= y < |a| && 0 <= x < |a[y]| ==> a[y][x] == b[y][x]
    ensures a == b
  {
    forall y | 0 <= y < |a|
      ensures a[y] == b[y]
    {
      assert forall x :: 0 <= x < |a[y]| ==> a[y][x] == b[y][x];
    }
  }

  /**
   * The frame condition of a legal play, for any clear run n holding exactly
   * `count` EMPTY squares: the origin becomes FULL, each EMPTY square of the
   * run becomes FULL, every other square is unchanged, and so is the shape.
   */
  lemma ApplyFrame(g: Grid, p: Play, n: int)
    requires IsUnit(p.dx, p.dy) && OnGrid(g, p.x, p.y) && LegalWithin(g, p, n)
    ensures |Applied(g, p)| == |g|
    ensures forall y :: 0 <= y < |g| ==> |Applied(g, p)[y]| == |g[y]|
    ensures Applied(g, p)[p.y][p.x] == g[p.y][p.x].(state := Full)
    ensures forall k :: 1 <= k <= n ==>
      var x, y := RayX(p, k), RayY(p, k);
      OnGrid(g, x, y) &&
      Applied(g, p)[y][x] == if g[y][x].state == Empty then g[y][x].(state := Full) else g[y][x]
    ensures forall y, x ::
      (OnGrid(g, x, y) && !(x == p.x && y == p.y) && !OnRayWithin(p, x, y, n))
      ==> Applied(g, p)[y][x] == g[y][x]
  {
    forall k | 1 <= k <= n
      ensures EmptiesIn(g, p, k) <= p.count
    {
      EmptiesMonotone(g, p, k, n);
    }
    forall y, x | OnGrid(g, x, y) && Fills(g, p, x, y)
      ensures RayIndex(p, x, y) <= n
    {
      var k := RayIndex(p, x, y);
      if k > n {
        EmptiesMonotone(g, p, n, k - 1);
      }
    }
  }

  /** The ray's EMPTY squares among 1..n, as coordinates. */
  ghost function RayEmpties(g: Grid, p: Play, n: int): set<(int, int)>
    decreases n
  {
    if n <= 0 then
      {}
    else
      var here := if EmptyAt(g, RayX(p, n), RayY(p, n)) then {(RayX(p, n), RayY(p, n))} else {};
      RayEmpties(g, p, n - 1) + here
  }

  lemma {:induction false} RayEmptiesMember(g: Grid, p: Play, n: int, x: int, y: int)
    requires IsUnit(p.dx, p.dy)
    ensures (x, y) in RayEmpties(g, p, n) <==> OnRayWithin(p, x, y, n) && EmptyAt(g, x, y)
    decreases n
  {
    if n > 0 {
      RayEmptiesMember(g, p, n - 1, x, y);
    }
  }

  lemma {:induction false} RayEmptiesCount(g: Grid, p: Play, n: int)
    requires IsUnit(p.dx, p.dy)
    ensures |RayEmpties(g, p, n)| == EmptiesIn(g, p, n)
    decreases n
  {
    if n > 0 {
      RayEmptiesCount(g, p, n - 1);
      var c := (RayX(p, n), RayY(p, n));
      if EmptyAt(g, c.0, c.1) {
        RayEmptiesMember(g, p, n - 1, c.0, c.1);
        assert c !in RayEmpties(g, p, n - 1);
        assert RayEmpties(g, p, n) == RayEmpties(g, p, n - 1) + {c};
      } else {
        assert RayEmpties(g, p, n) == RayEmpties(g, p, n - 1);
      }
    }
  }

  /** The coordinates of the squares in state `st`. */
  ghost function Cells(g: Grid, st: SquareState): set<(int, int)> {
    set y, x | 0 <= y < |g| && 0 <= x < |g[y]| && g[y][x].state == st :: (x, y)
  }

  ghost function Count(g: Grid, st: SquareState): nat {
    |Cells(g, st)|
  }

  lemma CellsMembership(g: Grid, st: SquareState)
    ensures forall x, y :: (x, y) in Cells(g, st) <==> OnGrid(g, x, y) && g[y][x].state == st
  {
  }

  /** On an EMPTY square, `Fills` picks out exactly the EMPTY squares of a legal run. */
  lemma FillsWithin(g: Grid, p: Play, n: int, x: int, y: int)
    requires IsUnit(p.dx, p.dy) && LegalWithin(g, p, n) && EmptyAt(g, x, y)
    ensures Fills(g, p, x, y) <==> (x, y) in RayEmpties(g, p, n)
  {
    RayEmptiesMember(g, p, n, x, y);
    var k := RayIndex(p, x, y);
    if Fills(g, p, x, y) && k > n {
      EmptiesMonotone(g, p, n, k - 1);
    }
    if 1 <= k <= n {
      EmptiesMonotone(g, p, k, n);
    }
  }

  /** The EMPTY squares after a legal play: those before it, less the ray's first `count`. */
  lemma AppliedEmptyCells(g: Grid, p: Play, n: int)
    requires IsUnit(p.dx, p.dy) && OnGrid(g, p.x, p.y) && g[p.y][p.x].state == Playable
    requires LegalWithin(g, p, n)
    ensures RayEmpties(g, p, n) <= Cells(g, Empty)
    ensures Cells(Applied(g, p), Empty) == Cells(g, Empty) - RayEmpties(g, p, n)
  {
    var a := Applied(g, p);
    var filled := RayEmpties(g, p, n);
    CellsMembership(g, Empty);
    CellsMembership(a, Empty);
    forall c | c in filled
      ensures c in Cells(g, Empty)
    {
      RayEmptiesMember(g, p, n, c.0, c.1);
    }
    forall c | c in Cells(a, Empty)
      ensures c in Cells(g, Empty) && c !in filled
    {
      assert c == (c.0, c.1);
      FillsWithin(g, p, n, c.0, c.1);
    }
    forall c | c in Cells(g, Empty) && c !in filled
      ensures c in Cells(a, Empty)
    {
      assert c == (c.0, c.1);
      FillsWithin(g, p, n, c.0, c.1);
    }
  }

  /** The PLAYABLE squares after a legal play from a PLAYABLE origin: all but the origin. */
  lemma AppliedPlayableCells(g: Grid, p: Play)
    requires OnGrid(g, p.x, p.y) && g[p.y][p.x].state == Playable
    ensures Cells(Applied(g, p), Playable) == Cells(g, Playable) - {(p.x, p.y)}
  {
    var a := Applied(g, p);
    CellsMembership(g, Playable);
    CellsMembership(a, Playable);
    forall c | c in Cells(a, Playable)
      ensures c in Cells(g, Playable) - {(p.x, p.y)}
    {
      assert c == (c.0, c.1);
    }
    forall c | c in Cells(g, Playable) - {(p.x, p.y)}
      ensures c in Cells(a, Playable)
    {
      assert c == (c.0, c.1);
    }
  }

  /**
   * A legal play from a PLAYABLE square removes exactly `count` EMPTY squares
   * and exactly one PLAYABLE square.
   */
  lemma ApplyCounts(g: Grid, p: Play)
    requires IsUnit(p.dx, p.dy) && OnGrid(g, p.x, p.y) && g[p.y][p.x].state == Playable
    requires Legal(g, p)
    ensures Count(Applied(g, p), Empty) == Count(g, Empty) - p.count
    ensures Count(Applied(g, p), Playable) == Count(g, Playable) - 1
  {
    var n :| LegalWithin(g, p, n);
    AppliedEmptyCells(g, p, n);
    RayEmptiesCount(g, p, n);
    AppliedPlayableCells(g, p);
    CellsMembership(g, Playable);
  }

  /** `is_solved`: no square is EMPTY or PLAYABLE. */
  predicate Solved(g: Grid) {
    forall y, x :: 0 <= y < |g| && 0 <= x < |g[y]| ==>
      g[y][x].state != Empty && g[y][x].state != Playable
  }

  lemma SolvedCounts(g: Grid)
    ensures Solved(g) <==> Count(g, Empty) == 0 && Count(g, Playable) == 0
  {
    if !Solved(g) {
      var y, x :| 0 <= y < |g| && 0 <= x < |g[y]| && (g[y][x].state == Empty || g[y][x].state == Playable);
      assert (x, y) in Cells(g, g[y][x].state);
    }
  }
}
