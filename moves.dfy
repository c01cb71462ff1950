/** The plays `get_plays` offers, as a specification function, and what it promises. */
module Moves {
  import opened Squares
  import opened Rules

  /**
   * A play as `get_plays` builds one: its origin is a PLAYABLE square, its
   * count is that square's count and its direction is a unit vector.
   */
  predicate Candidate(g: Grid, p: Play) {
    && OnGrid(g, p.x, p.y)
    && g[p.y][p.x].state == Playable
    && p.count == g[p.y][p.x].count
    && IsUnit(p.dx, p.dy)
  }

  /** `try_add_play`: a play is kept exactly when it is legal. */
  ghost function KeepIfLegal(g: Grid, p: Play): seq<Play> {
    if Legal(g, p) then [p] else []
  }

  /** The legal plays from (x, y), in the order (1,0), (-1,0), (0,1), (0,-1). */
  ghost function SquarePlays(g: Grid, x: int, y: int): seq<Play>
    requires OnGrid(g, x, y)
  {
    if g[y][x].state != Playable then
      []
    else
      var c := g[y][x].count;
      KeepIfLegal(g, Play(x, y, 1, 0, c)) + KeepIfLegal(g, Play(x, y, -1, 0, c))
      + KeepIfLegal(g, Play(x, y, 0, 1, c)) + KeepIfLegal(g, Play(x, y, 0, -1, c))
  }

  /**
   * The positions of the row-major scan of `get_plays`: (x, y) with x up to
   * the end of row y, and the end of the grid.
   */
  predicate InScan(g: Grid, y: int, x: int) {
    (0 <= y < |g| && 0 <= x <= |g[y]|) || (y == |g| && x == 0)
  }

  /** The plays found by the scan before it reaches square (x, y). */
  ghost function PlaysBefore(g: Grid, y: int, x: int): seq<Play>
    requires InScan(g, y, x)
    decreases y, x
  {
    if x > 0 then PlaysBefore(g, y, x - 1) + SquarePlays(g, x - 1, y)
    else if y > 0 then PlaysBefore(g, y - 1, |g[y - 1]|)
    else []
  }

  /** A PLAYABLE square with no legal play in any of the four directions. */
  ghost predicate DeadSquare(g: Grid, x: int, y: int) {
    && OnGrid(g, x, y)
    && g[y][x].state == Playable
    && var c := g[y][x].count;
      && !Legal(g, Play(x, y, 1, 0, c)) && !Legal(g, Play(x, y, -1, 0, c))
      && !Legal(g, Play(x, y, 0, 1, c)) && !Legal(g, Play(x, y, 0, -1, c))
  }

  ghost predicate DeadEnd(g: Grid) {
    exists y, x :: DeadSquare(g, x, y)
  }

  /** `get_plays`: no plays at all when some PLAYABLE square is dead. */
  ghost function Plays(g: Grid): seq<Play> {
    if DeadEnd(g) then [] else PlaysBefore(g, |g|, 0)
  }

  lemma SquarePlaysMember(g: Grid, x: int, y: int, p: Play)
    requires OnGrid(g, x, y)
    ensures p in SquarePlays(g, x, y) <==> p.x == x && p.y == y && Candidate(g, p) && Legal(g, p)
  {
    if p.x == x && p.y == y && Candidate(g, p) && Legal(g, p) {
      assert p == Play(x, y, p.dx, p.dy, g[y][x].count);
    }
  }

  /** A dead square is exactly a PLAYABLE square from which no play is offered. */
  lemma DeadSquareMeans(g: Grid, x: int, y: int)
    requires OnGrid(g, x, y)
    ensures DeadSquare(g, x, y) <==> g[y][x].state == Playable && SquarePlays(g, x, y) == []
  {
    if g[y][x].state == Playable && SquarePlays(g, x, y) == [] {
      var c := g[y][x].count;
      forall p | p in [Play(x, y, 1, 0, c), Play(x, y, -1, 0, c), Play(x, y, 0, 1, c), Play(x, y, 0, -1, c)]
        ensures !Legal(g, p)
      {
        SquarePlaysMember(g, x, y, p);
      }
    }
  }

  /** The scan reaches square (x, y) after exactly the squares before it in row-major order. */
  predicate ScannedBefore(p: Play, y: int, x: int) {
    p.y < y || (p.y == y && p.x < x)
  }

  lemma {:induction false} PlaysBeforeMember(g: Grid, y: int, x: int, p: Play)
    requires InScan(g, y, x)
    ensures p in PlaysBefore(g, y, x) <==> ScannedBefore(p, y, x) && Candidate(g, p) && Legal(g, p)
    decreases y, x
  {
    if x > 0 {
      PlaysBeforeMember(g, y, x - 1, p);
      SquarePlaysMember(g, x - 1, y, p);
      assert p in PlaysBefore(g, y, x) <==> p in PlaysBefore(g, y, x - 1) || p in SquarePlays(g, x - 1, y);
    } else if y > 0 {
      PlaysBeforeMember(g, y - 1, |g[y - 1]|, p);
      if Candidate(g, p) && p.y == y - 1 {
        assert p.x < |g[y - 1]|;
      }
    }
  }

  /**
   * The plays offered are exactly the legal candidate plays, and there are
   * none at all on a dead end.
   */
  lemma PlaysExactly(g: Grid, p: Play)
    ensures p in Plays(g) <==> !DeadEnd(g) && Candidate(g, p) && Legal(g, p)
  {
    PlaysBeforeMember(g, |g|, 0, p);
  }

  function DirRank(dx: int, dy: int): nat {
    if dx == 1 then 0 else if dx == -1 then 1 else if dy == 1 then 2 else 3
  }

  /** Row-major square order, then direction order. */
  predicate Precedes(a: Play, b: Play) {
    || a.y < b.y
    || (a.y == b.y && a.x < b.x)
    || (a.y == b.y && a.x == b.x && DirRank(a.dx, a.dy) < DirRank(b.dx, b.dy))
  }

  predicate Ordered(s: seq<Play>) {
    forall i, j :: 0 <= i < j < |s| ==> Precedes(s[i], s[j])
  }

  lemma OrderedConcat(a: seq<Play>, b: seq<Play>)
    requires Ordered(a) && Ordered(b)
    requires forall i, j :: 0 <= i < |a| && 0 <= j < |b| ==> Precedes(a[i], b[j])
    ensures Ordered(a + b)
  {
    forall i, j | 0 <= i < j < |a + b|
      ensures Precedes((a + b)[i], (a + b)[j])
    {
      if j < |a| {
        assert (a + b)[i] == a[i] && (a + b)[j] == a[j];
      } else if i < |a| {
        assert (a + b)[i] == a[i] && (a + b)[j] == b[j - |a|];
      } else {
        assert (a + b)[i] == b[i - |a|] && (a + b)[j] == b[j - |a|];
      }
    }
  }

  lemma SquarePlaysOrdered(g: Grid, x: int, y: int)
    requires OnGrid(g, x, y)
    ensures Ordered(SquarePlays(g, x, y))
  {
    if g[y][x].state == Playable {
      var c := g[y][x].count;
      var p1, p2, p3, p4 := Play(x, y, 1, 0, c), Play(x, y, -1, 0, c), Play(x, y, 0, 1, c), Play(x, y, 0, -1, c);
      var s1, s2, s3, s4 := KeepIfLegal(g, p1), KeepIfLegal(g, p2), KeepIfLegal(g, p3), KeepIfLegal(g, p4);
      OrderedConcat(s1, s2);
      OrderedConcat(s1 + s2, s3);
      OrderedConcat(s1 + s2 + s3, s4);
    }
  }

  lemma PlaysBeforePosition(g: Grid, y: int, x: int, p: Play)
    requires InScan(g, y, x) && p in PlaysBefore(g, y, x)
    ensures ScannedBefore(p, y, x)
  {
    PlaysBeforeMember(g, y, x, p);
  }

  lemma {:induction false} PlaysBeforeOrdered(g: Grid, y: int, x: int)
    requires InScan(g, y, x)
    ensures Ordered(PlaysBefore(g, y, x))
    decreases y, x
  {
    if x > 0 {
      var a, b := PlaysBefore(g, y, x - 1), SquarePlays(g, x - 1, y);
      PlaysBeforeOrdered(g, y, x - 1);
      SquarePlaysOrdered(g, x - 1, y);
      forall i, j | 0 <= i < |a| && 0 <= j < |b|
        ensures Precedes(a[i], b[j])
      {
        assert a[i] in a && b[j] in b;
        PlaysBeforePosition(g, y, x - 1, a[i]);
        SquarePlaysMember(g, x - 1, y, b[j]);
      }
      OrderedConcat(a, b);
    } else if y > 0 {
      PlaysBeforeOrdered(g, y - 1, |g[y - 1]|);
    }
  }

  /** The plays come in row-major square order, then direction order, with no repeats. */
  lemma PlaysOrdered(g: Grid)
    ensures Ordered(Plays(g))
  {
    PlaysBeforeOrdered(g, |g|, 0);
  }
}
