/**
 * The backtracking search (`solve_inner`, `solve`) as specification
 * functions, with what replaying its answer does.
 */
module Search {
  import opened Wrappers
  import opened Squares
  import opened Rules
  import opened Moves

  /** Every play of `ps` is a legal candidate on `g`. */
  ghost predicate AllPlayable(g: Grid, ps: seq<Play>) {
    forall i :: 0 <= i < |ps| ==> Candidate(g, ps[i]) && Legal(g, ps[i])
  }

  lemma PlaysPlayable(g: Grid)
    ensures AllPlayable(g, Plays(g))
  {
    forall i | 0 <= i < |Plays(g)|
      ensures Candidate(g, Plays(g)[i]) && Legal(g, Plays(g)[i])
    {
      PlaysExactly(g, Plays(g)[i]);
    }
  }

  /** A legal candidate play leaves one PLAYABLE square fewer. */
  lemma PlayReducesPlayable(g: Grid, p: Play)
    requires Candidate(g, p) && Legal(g, p)
    ensures Count(Applied(g, p), Playable) < Count(g, Playable)
  {
    ApplyCounts(g, p);
  }

  /**
   * `solve_inner`: the solution with the last play first, as the frames push
   * their play after the deeper call returns.
   */
  ghost function SearchFrom(g: Grid): Option<seq<Play>>
    decreases Count(g, Playable), 1, 0
  {
    if Solved(g) then
      Some([])
    else
      PlaysPlayable(g);
      TryPlays(g, Plays(g))
  }

  /** The loop of `solve_inner` over the candidates `ps`: the first that leads to a solution wins. */
  ghost function TryPlays(g: Grid, ps: seq<Play>): Option<seq<Play>>
    requires AllPlayable(g, ps)
    decreases Count(g, Playable), 0, |ps|
  {
    if ps == [] then
      None
    else
      PlayReducesPlayable(g, ps[0]);
      match SearchFrom(Applied(g, ps[0]))
      case Some(sol) => Some(sol + [ps[0]])
      case None => TryPlays(g, ps[1..])
  }

  function Reversed<T>(s: seq<T>): (r: seq<T>)
    ensures |r| == |s|
    ensures forall i :: 0 <= i < |s| ==> r[i] == s[|s| - 1 - i]
  {
    if s == [] then [] else [s[|s| - 1]] + Reversed(s[..|s| - 1])
  }

  /** `solve`: the answer of `solve_inner`, reversed into play order. */
  ghost function SolveSpec(g: Grid): Option<seq<Play>> {
    match SearchFrom(g)
    case Some(sol) => Some(Reversed(sol))
    case None => None
  }

  /** Playing `ms` in order from `g` makes only legal candidate plays and ends solved. */
  ghost predicate SolvesFrom(g: Grid, ms: seq<Play>)
    decreases |ms|
  {
    if ms == [] then
      Solved(g)
    else
      Candidate(g, ms[0]) && Legal(g, ms[0]) && SolvesFrom(Applied(g, ms[0]), ms[1..])
  }

  /** A solved board is answered at once with no plays. */
  lemma SolvedBoard(g: Grid)
    requires Solved(g)
    ensures SolveSpec(g) == Some([])
  {
  }

  lemma ReversedSnoc<T>(s: seq<T>, x: T)
    ensures Reversed(s + [x]) == [x] + Reversed(s)
  {
    assert (s + [x])[..|s|] == s;
  }

  lemma {:induction false} SearchSound(g: Grid)
    ensures SearchFrom(g).Some? ==> SolvesFrom(g, Reversed(SearchFrom(g).value))
    decreases Count(g, Playable), 1, 0
  {
    if !Solved(g) {
      PlaysPlayable(g);
      TryPlaysSound(g, Plays(g));
    }
  }

  lemma {:induction false} TryPlaysSound(g: Grid, ps: seq<Play>)
    requires AllPlayable(g, ps)
    ensures TryPlays(g, ps).Some? ==> SolvesFrom(g, Reversed(TryPlays(g, ps).value))
    decreases Count(g, Playable), 0, |ps|
  {
    if ps != [] {
      PlayReducesPlayable(g, ps[0]);
      var next := Applied(g, ps[0]);
      match SearchFrom(next)
      case Some(sol) =>
        SearchSound(next);
        ReversedSnoc(sol, ps[0]);
        assert ([ps[0]] + Reversed(sol))[1..] == Reversed(sol);
      case None =>
        TryPlaysSound(g, ps[1..]);
    }
  }

  /** Each play of a solving sequence uses up one PLAYABLE square, and a solved board has none. */
  lemma {:induction false} SolutionLength(g: Grid, ms: seq<Play>)
    requires SolvesFrom(g, ms)
    ensures |ms| == Count(g, Playable)
    decreases |ms|
  {
    if ms == [] {
      SolvedCounts(g);
    } else {
      ApplyCounts(g, ms[0]);
      SolutionLength(Applied(g, ms[0]), ms[1..]);
    }
  }

  /**
   * Replaying the answer of `solve` from the input board applies only legal
   * plays and ends in a solved board, and the answer has one play per
   * PLAYABLE square of the input.
   */
  lemma SolveSound(g: Grid)
    requires SolveSpec(g).Some?
    ensures SolvesFrom(g, SolveSpec(g).value)
    ensures |SolveSpec(g).value| == Count(g, Playable)
  {
    SearchSound(g);
    SolutionLength(g, SolveSpec(g).value);
  }

  /** The loop gives up exactly when no candidate leads to a solution. */
  lemma {:induction false} TryPlaysNone(g: Grid, ps: seq<Play>)
    requires AllPlayable(g, ps)
    ensures TryPlays(g, ps).None? <==> forall j :: 0 <= j < |ps| ==> SearchFrom(Applied(g, ps[j])).None?
    decreases |ps|
  {
    if ps != [] {
      var rest := ps[1..];
      assert AllPlayable(g, rest);
      TryPlaysNone(g, rest);
      assert forall j :: 1 <= j < |ps| ==> ps[j] == rest[j - 1];
    }
  }

  lemma TryPlaysUnfold(g: Grid, ps: seq<Play>)
    requires AllPlayable(g, ps) && ps != []
    ensures AllPlayable(g, ps[1..])
    ensures TryPlays(g, ps) ==
      if SearchFrom(Applied(g, ps[0])).Some? then Some(SearchFrom(Applied(g, ps[0])).value + [ps[0]])
      else TryPlays(g, ps[1..])
  {
  }

  /** The loop's answer comes from the first candidate that leads to a solution. */
  lemma {:induction false} TryPlaysWinner(g: Grid, ps: seq<Play>)
    requires AllPlayable(g, ps) && TryPlays(g, ps).Some?
    ensures exists i ::
      && 0 <= i < |ps| && FirstWinner(g, ps, i)
      && TryPlays(g, ps).value == SearchFrom(Applied(g, ps[i])).value + [ps[i]]
    decreases |ps|
  {
    TryPlaysUnfold(g, ps);
    if SearchFrom(Applied(g, ps[0])).Some? {
      assert FirstWinner(g, ps, 0);
    } else {
      var rest := ps[1..];
      TryPlaysWinner(g, rest);
      var i :| 0 <= i < |rest| && FirstWinner(g, rest, i)
        && TryPlays(g, rest).value == SearchFrom(Applied(g, rest[i])).value + [rest[i]];
      FirstWinnerShift(g, ps, i);
    }
  }

  lemma FirstWinnerShift(g: Grid, ps: seq<Play>, i: int)
    requires 0 <= i < |ps| - 1 && SearchFrom(Applied(g, ps[0])).None? && FirstWinner(g, ps[1..], i)
    ensures FirstWinner(g, ps, i + 1) && ps[i + 1] == ps[1..][i]
  {
    assert forall j :: 1 <= j < |ps| ==> ps[j] == ps[1..][j - 1];
  }

  /** `ps[i]` leads to a solution and no candidate before it does. */
  ghost predicate FirstWinner(g: Grid, ps: seq<Play>, i: int)
    requires 0 <= i < |ps|
  {
    SearchFrom(Applied(g, ps[i])).Some? &&
    forall j :: 0 <= j < i ==> SearchFrom(Applied(g, ps[j])).None?
  }

  /**
   * On an unsolved board the answer starts with the first candidate, in
   * `get_plays` order, from which the search succeeds, followed by the answer
   * for the board that play leaves.
   */
  lemma SolveTakesFirst(g: Grid)
    requires !Solved(g) && SolveSpec(g).Some?
    ensures SolveSpec(g).value != []
    ensures exists i ::
      && 0 <= i < |Plays(g)| && FirstWinner(g, Plays(g), i)
      && SolveSpec(g).value[0] == Plays(g)[i]
      && SolveSpec(Applied(g, Plays(g)[i])) == Some(SolveSpec(g).value[1..])
  {
    PlaysPlayable(g);
    var ps := Plays(g);
    TryPlaysWinner(g, ps);
    var i :| 0 <= i < |ps| && FirstWinner(g, ps, i)
      && TryPlays(g, ps).value == SearchFrom(Applied(g, ps[i])).value + [ps[i]];
    var sol := SearchFrom(Applied(g, ps[i])).value;
    ReversedSnoc(sol, ps[i]);
    var answer := [ps[i]] + Reversed(sol);
    assert SolveSpec(g) == Some(answer);
    assert SolveSpec(Applied(g, ps[i])) == Some(answer[1..]);
  }

  // Completeness: a board the search gives up on has no solution at all.

  lemma {:induction false} EmptiesDominated(g: Grid, h: Grid, p: Play, n: int)
    requires forall k :: 1 <= k <= n ==> EmptyAt(h, RayX(p, k), RayY(p, k)) ==> EmptyAt(g, RayX(p, k), RayY(p, k))
    ensures EmptiesIn(h, p, n) <= EmptiesIn(g, p, n)
    decreases n
  {
    if n > 0 {
      EmptiesDominated(g, h, p, n - 1);
    }
  }

  lemma {:induction false} EmptiesReach(g: Grid, p: Play, n: int, c: nat)
    requires c <= EmptiesIn(g, p, n)
    ensures exists m :: m <= n && EmptiesIn(g, p, m) == c
    decreases n
  {
    if EmptiesIn(g, p, n) != c {
      EmptiesReach(g, p, n - 1, c);
    }
  }

  /** A play illegal now stays illegal after any legal candidate play. */
  lemma LegalEarlier(g: Grid, q: Play, p: Play)
    requires Candidate(g, q) && Legal(g, q)
    ensures Legal(Applied(g, q), p) ==> Legal(g, p)
  {
    var h := Applied(g, q);
    if Legal(h, p) {
      var n :| LegalWithin(h, p, n);
      EmptiesDominated(g, h, p, n);
      EmptiesReach(g, p, n, p.count);
      var m :| m <= n && EmptiesIn(g, p, m) == p.count;
      assert LegalWithin(g, p, m);
    }
  }

  /** A dead PLAYABLE square stays dead, and PLAYABLE, after any play from another square. */
  lemma DeadStaysDead(g: Grid, q: Play, x: int, y: int)
    requires Candidate(g, q) && Legal(g, q) && DeadSquare(g, x, y)
    ensures !(q.x == x && q.y == y)
    ensures DeadSquare(Applied(g, q), x, y)
  {
    var h := Applied(g, q);
    SquarePlaysMember(g, x, y, q);
    var c := g[y][x].count;
    assert h[y][x] == g[y][x];
    forall p | p in [Play(x, y, 1, 0, c), Play(x, y, -1, 0, c), Play(x, y, 0, 1, c), Play(x, y, 0, -1, c)]
      ensures !Legal(h, p)
    {
      SquarePlaysMember(g, x, y, p);
      if Legal(h, p) {
        LegalEarlier(g, q, p);
      }
    }
  }

  /** No sequence of legal plays solves a board with a dead square. */
  lemma {:induction false} DeadEndUnsolvable(g: Grid, x: int, y: int, ms: seq<Play>)
    requires DeadSquare(g, x, y)
    ensures !SolvesFrom(g, ms)
    decreases |ms|
  {
    if ms != [] && Candidate(g, ms[0]) && Legal(g, ms[0]) {
      DeadStaysDead(g, ms[0], x, y);
      DeadEndUnsolvable(Applied(g, ms[0]), x, y, ms[1..]);
    }
  }

  lemma {:induction false} SearchComplete(g: Grid, ms: seq<Play>)
    requires SearchFrom(g).None?
    ensures !SolvesFrom(g, ms)
    decreases Count(g, Playable)
  {
    if DeadEnd(g) {
      var y, x :| DeadSquare(g, x, y);
      DeadEndUnsolvable(g, x, y, ms);
    } else if ms != [] && Candidate(g, ms[0]) && Legal(g, ms[0]) {
      PlaysPlayable(g);
      PlaysExactly(g, ms[0]);
      var i :| 0 <= i < |Plays(g)| && Plays(g)[i] == ms[0];
      TryPlaysNone(g, Plays(g));
      PlayReducesPlayable(g, ms[0]);
      SearchComplete(Applied(g, ms[0]), ms[1..]);
    }
  }

  /**
   * `solve` finds an answer exactly when some sequence of legal plays solves
   * the board; in particular the dead-end cut-off of `get_plays` loses no
   * solution.
   */
  lemma {:induction false} SolveComplete(g: Grid)
    ensures SolveSpec(g).Some? ==> exists ms :: SolvesFrom(g, ms)
    ensures (exists ms :: SolvesFrom(g, ms)) ==> SolveSpec(g).Some?
  {
    if SolveSpec(g).Some? {
      SolveSound(g);
      var ms := SolveSpec(g).value;
      assert SolvesFrom(g, ms);
    } else {
      forall ms
        ensures !SolvesFrom(g, ms)
      {
        SearchComplete(g, ms);
      }
    }
  }
}
