/**
 * The board object (`Map`) and its methods, each proved against the
 * specification functions of Rules, Moves, Search and Text.
 */
module Solver {
  import opened Wrappers
  import opened Squares
  import opened Text
  import opened Rules
  import opened Moves
  import opened Search

  class Map {
    var grid: Grid

    /** `Map { grid }`, and the derived `clone`. */
    constructor (grid: Grid)
      ensures this.grid == grid
    {
      this.grid := grid;
    }

    /** `Map::parse`: a loop over the characters, pushing squares and rows. */
    static method Parse(s: string) returns (r: Result<Map, string>)
      ensures r.Err? <==> ParseText(s).Err?
      ensures r.Err? ==> r.error == ParseText(s).error
      ensures r.Ok? ==> fresh(r.value) && r.value.grid == ParseText(s).value
    {
      var lines: Grid := [];
      var line: seq<Square> := [];
      for i := 0 to |s|
        invariant Scan(s[..i]) == Ok(ScanState(lines, line))
      {
        var c := s[i];
        assert s[..i + 1][..i] == s[..i];
        if IsAsciiHexDigit(c) || c == ' ' || c == '.' {
          var sq := ParseSquare(c);
          if sq.Err? {
            ScanErrorStays(s, i + 1);
            return Err(sq.error);
          }
          line := line + [sq.value];
        } else if c == '\n' {
          lines := lines + [line];
          line := [];
        }
      }
      assert s[..|s|] == s;
      lines := lines + [line];
      var m := new Map(lines);
      r := Ok(m);
    }

    /** `is_legal_play`: walk the ray counting EMPTY squares until `count` are met. */
    method IsLegalPlay(p: Play) returns (legal: bool)
      requires IsUnit(p.dx, p.dy)
      ensures legal == Legal(grid, p)
    {
      var x := p.x + p.dx;
      var y := p.y + p.dy;
      var empties := 0;
      ghost var k := 1;
      while empties < p.count
        invariant 1 <= k && x == RayX(p, k) && y == RayY(p, k)
        invariant ClearRun(grid, p, k - 1) && empties == EmptiesIn(grid, p, k - 1)
        invariant empties <= p.count
        decreases WalkBound(grid, p) - k
      {
        match GetSquare(grid, x, y) {
          case Some(sq) =>
            if sq.state == Empty {
              empties := empties + 1;
            } else if sq.state == Block {
              NotLegalAtBlock(grid, p, k);
              return false;
            }
          case None =>
            NotLegalAtBlock(grid, p, k);
            return false;
        }
        RayLeavesGrid(grid, p, k);
        x := x + p.dx;
        y := y + p.dy;
        k := k + 1;
      }
      assert LegalWithin(grid, p, k - 1);
      return true;
    }

    /**
     * `apply_play`: the origin becomes FULL, then the walk fills EMPTY squares
     * until `count` have been filled. The panic on an illegal play, and the
     * `unwrap`s, become the precondition.
     */
    method ApplyPlay(p: Play)
      requires IsUnit(p.dx, p.dy) && OnGrid(grid, p.x, p.y) && Legal(grid, p)
      modifies this
      ensures grid == Applied(old(grid), p)
    {
      grid := FillWalk(grid, p);
    }

    /**
     * The walk of `apply_play` on the squares of `g`: mark the origin FULL,
     * then step along the ray, making EMPTY squares FULL until `count` have
     * been filled.
     */
    static method FillWalk(g: Grid, p: Play) returns (cells: Grid)
      requires IsUnit(p.dx, p.dy) && OnGrid(g, p.x, p.y) && Legal(g, p)
      ensures cells == Applied(g, p)
    {
      ghost var n :| LegalWithin(g, p, n);
      var x := p.x;
      var y := p.y;
      var filled := 0;
      cells := Fill(g, x, y);
      WalkStart(g, p);
      ghost var k := 0;
      while filled < p.count
        invariant Walking(g, p, k, x, y, filled, cells)
        decreases WalkBound(g, p) - k
      {
        WalkStep(g, p, n, k, x, y, filled, cells);
        if cells[y][x].state == Empty {
          cells := Fill(cells, x, y);
          filled := filled + 1;
        }
        x := x + p.dx;
        y := y + p.dy;
        k := k + 1;
      }
      WalkDone(g, p, k, x, y, filled, cells);
    }

    /** `is_solved`: a scan that stops at the first EMPTY or PLAYABLE square. */
    method IsSolved() returns (solved: bool)
      ensures solved == Solved(grid)
    {
      for y := 0 to |grid|
        invariant forall y', x' :: 0 <= y' < y && 0 <= x' < |grid[y']| ==>
          grid[y'][x'].state != Empty && grid[y'][x'].state != Playable
      {
        var line := grid[y];
        for x := 0 to |line|
          invariant forall x' :: 0 <= x' < x ==> line[x'].state != Empty && line[x'].state != Playable
        {
          match line[x].state {
            case Empty => return false;
            case Playable => return false;
            case _ =>
          }
        }
      }
      return true;
    }

    /** The closure `try_add_play` of `get_plays`: push the play if it is legal. */
    method TryAddPlay(plays: seq<Play>, play: Play) returns (plays': seq<Play>, added: bool)
      requires IsUnit(play.dx, play.dy)
      ensures added == Legal(grid, play)
      ensures plays' == plays + KeepIfLegal(grid, play)
    {
      added := IsLegalPlay(play);
      plays' := if added then plays + [play] else plays;
    }

    /**
     * `get_plays`: for each PLAYABLE square in row-major order try the four
     * directions; a square with none legal ends the scan with no plays.
     */
    method GetPlays() returns (plays: seq<Play>)
      ensures plays == Plays(grid)
    {
      plays := [];
      for y := 0 to |grid|
        invariant Scanned(grid, y, 0, plays)
      {
        var line := grid[y];
        for x := 0 to |line|
          invariant Scanned(grid, y, x, plays)
        {
          var square := line[x];
          if square.state == Playable {
            var playExists;
            plays, playExists := AddSquarePlays(plays, x, y);
            if !playExists {
              DeadEndNoPlays(grid, x, y);
              return [];
            }
          } else {
            NotPlayableSquare(grid, x, y);
          }
        }
        NextRow(grid, y, plays);
      }
      NoDeadSquare(grid, plays);
    }

    /**
     * The body of the scan of `get_plays` at a PLAYABLE square: try the four
     * directions in order, and report whether any was legal.
     */
    method AddSquarePlays(plays: seq<Play>, x: int, y: int) returns (plays': seq<Play>, playExists: bool)
      requires OnGrid(grid, x, y) && grid[y][x].state == Playable
      ensures plays' == plays + SquarePlays(grid, x, y)
      ensures playExists <==> !DeadSquare(grid, x, y)
    {
      var c := grid[y][x].count;
      SquarePlaysAppend(grid, x, y, plays);
      var e1, e2, e3, e4;
      plays', e1 := TryAddPlay(plays, Play(x, y, 1, 0, c));
      plays', e2 := TryAddPlay(plays', Play(x, y, -1, 0, c));
      plays', e3 := TryAddPlay(plays', Play(x, y, 0, 1, c));
      plays', e4 := TryAddPlay(plays', Play(x, y, 0, -1, c));
      playExists := e4 || e3 || e2 || e1;
    }

    /**
     * `solve_inner`: solved boards answer at once; otherwise each play in turn
     * is applied to a clone, and the first clone that can be solved answers,
     * with its play pushed last.
     */
    method SolveInner() returns (r: Option<seq<Play>>)
      ensures r == SearchFrom(grid)
      decreases Count(grid, Playable)
    {
      var solved := IsSolved();
      if solved {
        return Some([]);
      }
      var plays := GetPlays();
      PlaysPlayable(grid);
      for i := 0 to |plays|
        invariant AllPlayable(grid, plays[i..])
        invariant TryPlays(grid, plays[i..]) == SearchFrom(grid)
      {
        var play := plays[i];
        TryPlaysStep(grid, plays, i);
        var next := new Map(grid);
        next.ApplyPlay(play);
        var solution := next.SolveInner();
        if solution.Some? {
          return Some(solution.value + [play]);
        }
      }
      return None;
    }

    /** `solve`: the answer of `solve_inner` in play order. */
    method Solve() returns (r: Option<seq<Play>>)
      ensures r == SolveSpec(grid)
    {
      var inner := SolveInner();
      match inner {
        case Some(solution) => r := Some(Reversed(solution));
        case None => r := None;
      }
    }
  }

  /** The board while `apply_play` runs: the origin, and the ray's fills before index k, done. */
  function PartlyApplied(g: Grid, p: Play, k: int, x: int, y: int): Square
    requires OnGrid(g, x, y)
  {
    if (x == p.x && y == p.y) || (Fills(g, p, x, y) && RayIndex(p, x, y) < k) then
      g[y][x].(state := Full)
    else
      g[y][x]
  }

  /** The square at (x, y) made FULL, as `square.state = FULL` does. */
  function Fill(g: Grid, x: int, y: int): Grid
    requires OnGrid(g, x, y)
  {
    g[y := g[y][x := g[y][x].(state := Full)]]
  }

  function Partial(g: Grid, p: Play, k: int): Grid {
    seq(|g|, y requires 0 <= y < |g| =>
      seq(|g[y]|, x requires 0 <= x < |g[y]| => PartlyApplied(g, p, k, x, y)))
  }

  lemma PartialAt(g: Grid, p: Play, k: int)
    ensures |Partial(g, p, k)| == |g|
    ensures forall y :: 0 <= y < |g| ==> |Partial(g, p, k)[y]| == |g[y]|
    ensures forall y, x :: 0 <= y < |g| && 0 <= x < |g[y]| ==>
      Partial(g, p, k)[y][x] == PartlyApplied(g, p, k, x, y)
  {
  }

  /** Marking the origin FULL is the board before any step of the walk. */
  lemma WalkStart(g: Grid, p: Play)
    requires OnGrid(g, p.x, p.y)
    ensures Walking(g, p, 0, p.x, p.y, 0, Fill(g, p.x, p.y))
  {
    var h := Fill(g, p.x, p.y);
    PartialAt(g, p, 0);
    GridExtensionality(h, Partial(g, p, 0));
  }

  /**
   * One step of the walk at the ray's k-th square, while fewer than `count`
   * EMPTY squares have been met: that square is on the grid, it is EMPTY on
   * the current board exactly when it was EMPTY before the play (and is not
   * the origin), and filling it gives the board of the next step.
   */
  lemma PartialStep(g: Grid, p: Play, k: int, x: int, y: int)
    requires IsUnit(p.dx, p.dy) && 0 <= k && x == RayX(p, k) && y == RayY(p, k)
    requires OnGrid(g, x, y)
    requires EmptiesIn(g, p, k - 1) < p.count
    ensures Partial(g, p, k)[y][x].state == Empty <==> k >= 1 && EmptyAt(g, x, y)
    ensures EmptiesIn(g, p, k) == EmptiesIn(g, p, k - 1) + (if Partial(g, p, k)[y][x].state == Empty then 1 else 0)
    ensures Partial(g, p, k + 1) ==
      var h := Partial(g, p, k);
      if h[y][x].state == Empty then Fill(h, x, y) else h
  {
    PartialAt(g, p, k);
    PartialAt(g, p, k + 1);
    var h: Grid := Partial(g, p, k);
    var s: Square := h[y][x];
    assert RayIndex(p, x, y) == k;
    var h': Grid := if s.state == Empty then h[y := h[y][x := s.(state := Full)]] else h;
    forall y', x' | 0 <= y' < |g| && 0 <= x' < |g[y']|
      ensures h'[y'][x'] == Partial(g, p, k + 1)[y'][x']
    {
      if x' == x && y' == y {
      } else {
        assert Fills(g, p, x', y') && RayIndex(p, x', y') == k ==> x' == x && y' == y;
      }
    }
    GridExtensionality(h', Partial(g, p, k + 1));
  }

  /**
   * The state of the walk of `apply_play` before its k-th step: at the ray's
   * k-th square, with the EMPTY squares before it counted and filled.
   */
  predicate Walking(g: Grid, p: Play, k: int, x: int, y: int, filled: int, cells: Grid) {
    && 0 <= k && x == RayX(p, k) && y == RayY(p, k)
    && filled == EmptiesIn(g, p, k - 1) && filled <= p.count
    && cells == Partial(g, p, k)
  }

  /**
   * One step of the walk of `apply_play` while fewer than `count` EMPTY squares
   * are filled: the square is on the board, the walk is still within its
   * bound, and filling the square if it is EMPTY gives the next state.
   */
  lemma WalkStep(g: Grid, p: Play, n: int, k: int, x: int, y: int, filled: int, cells: Grid)
    requires IsUnit(p.dx, p.dy) && OnGrid(g, p.x, p.y) && LegalWithin(g, p, n)
    requires Walking(g, p, k, x, y, filled, cells) && filled < p.count
    ensures OnGrid(cells, x, y) && k < WalkBound(g, p) + 1
    ensures cells[y][x].state == Empty ==>
      Walking(g, p, k + 1, x + p.dx, y + p.dy, filled + 1, Fill(cells, x, y))
    ensures cells[y][x].state != Empty ==> Walking(g, p, k + 1, x + p.dx, y + p.dy, filled, cells)
  {
    if k > 0 {
      FullRunReach(g, p, n, k - 1);
    }
    RayLeavesGrid(g, p, k);
    PartialAt(g, p, k);
    PartialStep(g, p, k, x, y);
  }

  /** Once `count` squares are filled, the board is the one the play specifies. */
  lemma WalkDone(g: Grid, p: Play, k: int, x: int, y: int, filled: int, cells: Grid)
    requires Walking(g, p, k, x, y, filled, cells) && filled >= p.count
    ensures cells == Applied(g, p)
  {
    PartialAt(g, p, k);
    forall y, x | OnGrid(g, x, y) && Fills(g, p, x, y)
      ensures RayIndex(p, x, y) < k
    {
      var j := RayIndex(p, x, y);
      if j >= k {
        EmptiesMonotone(g, p, k - 1, j - 1);
      }
    }
    GridExtensionality(Partial(g, p, k), Applied(g, p));
  }

  /** A square that is not PLAYABLE adds no play and is not dead. */
  lemma NotPlayableSquare(g: Grid, x: int, y: int)
    requires OnGrid(g, x, y) && g[y][x].state != Playable
    ensures SquarePlays(g, x, y) == [] && !DeadSquare(g, x, y)
  {
  }

  /** Trying the four directions of a PLAYABLE square in turn appends the square's plays. */
  lemma SquarePlaysAppend(g: Grid, x: int, y: int, before: seq<Play>)
    requires OnGrid(g, x, y) && g[y][x].state == Playable
    ensures var c := g[y][x].count;
      before + SquarePlays(g, x, y) ==
      before + KeepIfLegal(g, Play(x, y, 1, 0, c)) + KeepIfLegal(g, Play(x, y, -1, 0, c))
      + KeepIfLegal(g, Play(x, y, 0, 1, c)) + KeepIfLegal(g, Play(x, y, 0, -1, c))
  {
  }

  /** No square the scan has passed before (x, y) is dead. */
  ghost predicate AliveBefore(g: Grid, y: int, x: int)
    requires InScan(g, y, x)
    decreases y, x
  {
    if x > 0 then AliveBefore(g, y, x - 1) && !DeadSquare(g, x - 1, y)
    else if y > 0 then AliveBefore(g, y - 1, |g[y - 1]|)
    else true
  }

  lemma {:induction false} AliveBeforeMeans(g: Grid, y: int, x: int, x': int, y': int)
    requires InScan(g, y, x) && AliveBefore(g, y, x) && (y' < y || (y' == y && x' < x))
    ensures !DeadSquare(g, x', y')
    decreases y, x
  {
    if x > 0 {
      if !(y' == y && x' == x - 1) {
        AliveBeforeMeans(g, y, x - 1, x', y');
      }
    } else if y > 0 && y' < y && !(y' == y - 1 && x' >= |g[y - 1]|) {
      AliveBeforeMeans(g, y - 1, |g[y - 1]|, x', y');
    }
  }

  /** The state of the scan of `get_plays` at square (x, y): the plays so far, and no dead square yet. */
  ghost predicate Scanned(g: Grid, y: int, x: int, plays: seq<Play>) {
    InScan(g, y, x) && plays == PlaysBefore(g, y, x) && AliveBefore(g, y, x)
  }

  /** The end of row y is the start of row y + 1. */
  lemma NextRow(g: Grid, y: int, plays: seq<Play>)
    requires 0 <= y < |g| && Scanned(g, y, |g[y]|, plays)
    ensures Scanned(g, y + 1, 0, plays)
  {
  }

  /** A dead square leaves `get_plays` nothing to offer. */
  lemma DeadEndNoPlays(g: Grid, x: int, y: int)
    requires DeadSquare(g, x, y)
    ensures Plays(g) == []
  {
  }

  /** A full scan that met no dead square: the plays are those of every row. */
  lemma NoDeadSquare(g: Grid, plays: seq<Play>)
    requires Scanned(g, |g|, 0, plays)
    ensures plays == Plays(g)
  {
    forall y, x
      ensures !DeadSquare(g, x, y)
    {
      if y < |g| {
        AliveBeforeMeans(g, |g|, 0, x, y);
      }
    }
  }

  /**
   * One turn of the loop of `solve_inner` over `plays`, at index i: the play
   * can be applied, leaves fewer PLAYABLE squares, and the remaining answer is
   * the deeper search's or that of the rest of the loop.
   */
  lemma TryPlaysStep(g: Grid, plays: seq<Play>, i: int)
    requires 0 <= i < |plays| && AllPlayable(g, plays[i..])
    ensures Candidate(g, plays[i]) && Legal(g, plays[i])
    ensures Count(Applied(g, plays[i]), Playable) < Count(g, Playable)
    ensures AllPlayable(g, plays[i + 1..])
    ensures TryPlays(g, plays[i..]) ==
      if SearchFrom(Applied(g, plays[i])).Some? then Some(SearchFrom(Applied(g, plays[i])).value + [plays[i]])
      else TryPlays(g, plays[i + 1..])
  {
    var rest := plays[i..];
    assert rest[0] == plays[i] && rest[1..] == plays[i + 1..];
    TryPlaysUnfold(g, rest);
    PlayReducesPlayable(g, plays[i]);
  }

  /** A parse error, once met, is the answer for every longer prefix. */
  lemma {:induction false} ScanErrorStays(s: string, i: int)
    requires 0 <= i <= |s| && Scan(s[..i]).Err?
    ensures Scan(s) == Scan(s[..i])
    decreases |s| - i
  {
    if i < |s| {
      assert s[..i + 1][..i] == s[..i];
      ScanErrorStays(s, i + 1);
    } else {
      assert s[..i] == s;
    }
  }
}
