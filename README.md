# A verified model of a "fill the empties" puzzle solver

The program solves a small grid puzzle. A board is a ragged grid of rows. Each square is one of four kinds:

- BLOCK, written ' ';
- EMPTY, written '.';
- FULL, written 'X';
- PLAYABLE, written as its count, a digit.

A play starts at a PLAYABLE square with count `c` and goes in one of the four unit directions. It walks from the next square, passes over FULL and PLAYABLE squares, and must meet `c` EMPTY squares before it reaches a BLOCK square or the edge of the grid. Applying the play makes the origin and those first `c` EMPTY squares FULL. The board is solved once no square is EMPTY or PLAYABLE. The solver does a depth-first backtracking search over the legal plays and returns the first solution it finds, in play order.

The model has seven modules, one per file:

- `Wrappers` holds `Option` and `Result`.
- `Squares` holds the square datatype and its one-character codec: `Square::parse`, `from_hex`, `to_hex` and `Display for Square`.
- `Text` holds the text of a board. `Map::parse` is the specification function `ParseText`, built from a per-character `Step`. `Display for Map` is the function `Render`.
- `Rules` holds the rules on grid values:
  - `get_square`;
  - legality (`Legal`), as the walk of `is_legal_play` defines it;
  - the board after a play (`Applied`);
  - the PLAYABLE and EMPTY counts;
  - `is_solved`.
- `Moves` holds the play list of `get_plays` as the specification function `Plays`.
- `Search` holds `solve_inner` and `solve` as the specification functions `SearchFrom`, `TryPlays` and `SolveSpec`. It also holds soundness and completeness of the search.
- `Solver` holds the class `Map`, whose field `grid` the methods read and update. Each method's loop is proved against the specification functions above:
  - `Parse`, `IsLegalPlay`, `ApplyPlay` with its walk `FillWalk`, `IsSolved`, `GetPlays` and its closure `TryAddPlay`;
  - `SolveInner`, whose clones are `new Map(grid)`, and `Solve`.

In a few places the code behaves otherwise than one might expect, and the model does what the code does:

- Only the characters '1'..'9' become PLAYABLE squares.
- `Map::parse` does hand the characters '0', 'a'..'f' and 'A'..'F' to `Square::parse`, because they pass `is_ascii_hexdigit`. `Square::parse` refuses them, so the whole parse fails.
- Every character other than those, ' ', '.' and newline is skipped.
- `from_hex('f')` is 15, and `to_hex(16)` is 'g'.

The main results are these:

- Replaying the answer of `solve` applies only legal plays from PLAYABLE squares, ends in a solved board and uses one play per PLAYABLE square (`SolveSound`).
- `solve` answers exactly when some sequence of legal plays solves the board (`SolveComplete`). So the dead-end cut-off of `get_plays` loses no solution.
- `get_plays` offers exactly the legal candidate plays, in row-major then direction order, and none at all on a dead end (`PlaysExactly`, `PlaysOrdered`).
- A legal play removes exactly `count` EMPTY squares and one PLAYABLE square (`ApplyCounts`).
- Text over '1'..'9', ' ', '.' and newline parses and renders back as itself followed by a newline (`RenderParseRoundTrip`).

## Model

| member | source | states |
|---|---|---|
| Squares.ToHex | src/main.rs:260-268 | 1..9 map to '1'..'9' and 10..16 to 'a'..'g', each range exactly; the source panics outside 1..16 |
| Squares.FromHex | src/main.rs:250-258 | a digit or a letter 'a'..'f' decodes into 1..15, digits exactly to 1..9, and encodes back to the same character |
| Squares.HexRoundTrip | src/main.rs:250-268 | for every value 1..15, `to_hex` gives a character that `from_hex` decodes back to the value |
| Squares.HexEdges | src/main.rs:250-268 | 'f' decodes to 15 and 16 encodes as 'g' |
| Squares.RenderSquare | src/main.rs:53-63 | FULL is 'X', EMPTY '.', BLOCK ' ', each exactly; PLAYABLE is exactly a digit or a letter 'a'..'g' |
| Squares.ParseSquare | src/main.rs:31-50 | succeeds exactly on '1'..'9', ' ' and '.'; a success is a canonical square that renders as the character, and a digit gives its own value as count; any other character is refused with the message naming it |
| Squares.SquareRoundTrip | src/main.rs:31-63 | parsing the rendering of any square the parser can build gives the square back |
| Text.RenderRow | src/main.rs:232-235 | a row renders as one character per square, the i-th being the i-th square's |
| Text.StepFails | src/main.rs:75-81 | one character of the parse loop fails exactly on '0', 'a'..'f' or 'A'..'F', with the message naming it |
| Text.ScanFails | src/main.rs:71-82 | the loop stops with an error exactly when the text holds a refused character, and the error names the first one |
| Text.ScanShape | src/main.rs:71-82 | after a successful loop there is one finished row per newline, and every square is canonical |
| Text.ParseShape | src/main.rs:71-89 | a successful parse has one row more than the text has newlines, all squares BLOCK, EMPTY or PLAYABLE 1..9 |
| Text.ParseFails | src/main.rs:71-89 | `Map::parse` fails exactly when the text holds a refused character, and its error names the first one |
| Text.ScanIgnoresOthers | src/main.rs:75-82 | the loop's result is unchanged when the skipped characters are removed |
| Text.ParseIgnoresOthers | src/main.rs:71-89 | the parse is unchanged when the skipped characters are removed |
| Text.StepRenders | src/main.rs:75-81 | a character of the alphabet extends the rendering of the parser's accumulators by exactly that character |
| Text.ScanRenders | src/main.rs:71-82 | on the alphabet the loop succeeds, and its finished rows and current row render back as the text |
| Text.RenderAppend | src/main.rs:230-240 | `Display for Map` writes a board with one more row as the board's text, then that row's squares, then one newline |
| Text.RenderParseRoundTrip | src/main.rs:71-89 | text over '1'..'9', ' ', '.' and newline parses, and `Display for Map` gives back the text plus one newline |
| Text.CleanAlphabet | src/main.rs:76-78 | without refused characters, the characters the loop keeps are all in the alphabet |
| Text.ParseRendersClean | src/main.rs:71-89 | text without refused characters parses, and renders as the text minus the skipped characters plus a newline |
| Rules.GetSquare | src/main.rs:144-146 | a square is returned exactly for coordinates inside the ragged grid, negative ones excluded, and it is the square there |
| Rules.NotLegalAtBlock | src/main.rs:130-135 | a walk that meets a BLOCK square or the edge with fewer than `count` EMPTY squares behind it shows the play is illegal |
| Rules.FullRunReach | src/main.rs:130-139 | while fewer than `count` EMPTY squares are behind it, a walk of a legal play has not finished and its next square is open |
| Rules.EmptiesMonotone | src/main.rs:130-132 | the number of EMPTY squares met never decreases along the ray |
| Rules.RayLeavesGrid | src/main.rs:130-139 | any on-grid square of a unit ray is within a bound fixed by the grid and origin, so both walks end |
| Rules.Applied | src/main.rs:152-176 | the board after a play has the same shape, and each square is the one the play specifies |
| Rules.ApplyFrame | src/main.rs:152-176 | after a legal play the origin is FULL, each EMPTY square of the clear run becomes FULL, and every other square and the shape are unchanged |
| Rules.RayEmptiesCount | src/main.rs:130-132 | the EMPTY squares met along the ray are as many distinct squares as the walk counts |
| Rules.ApplyCounts | src/main.rs:152-176 | a legal play from a PLAYABLE square removes exactly `count` EMPTY squares and exactly one PLAYABLE square |
| Rules.SolvedCounts | src/main.rs:178-190 | a board is solved exactly when it has no EMPTY and no PLAYABLE square |
| Moves.SquarePlaysMember | src/main.rs:105-109 | the plays tried at a square are exactly its legal candidate plays |
| Moves.DeadSquareMeans | src/main.rs:105-114 | a square ends the scan exactly when it is PLAYABLE and none of its four plays is legal |
| Moves.SquarePlaysOrdered | src/main.rs:106-109 | a square's plays come in the order (1,0), (-1,0), (0,1), (0,-1) |
| Moves.PlaysBeforeMember | src/main.rs:103-117 | before the scan reaches a square, it has found exactly the legal candidate plays from the squares before it in row-major order |
| Moves.PlaysExactly | src/main.rs:91-123 | `get_plays` offers a play exactly when it is a legal candidate and no PLAYABLE square is dead |
| Moves.PlaysOrdered | src/main.rs:103-117 | the offered plays are in row-major square order, then direction order, with no repeats |
| Search.PlaysPlayable | src/main.rs:205-209 | every play the search loops over is a legal candidate |
| Search.PlayReducesPlayable | src/main.rs:217-220 | applying one of them leaves fewer PLAYABLE squares, so the recursion ends |
| Search.Reversed | src/main.rs:193 | reversing keeps the length and puts the i-th from the end i-th |
| Search.SolvedBoard | src/main.rs:200-203 | a solved board is answered at once with no plays |
| Search.SearchSound | src/main.rs:196-227 | reversed, an answer of `solve_inner` is a sequence of legal candidate plays that solves the board |
| Search.TryPlaysSound | src/main.rs:209-226 | the same for an answer of the loop over a list of candidates |
| Search.SolutionLength | src/main.rs:192-227 | every solving sequence has one play per PLAYABLE square |
| Search.SolveSound | src/main.rs:192-194 | the answer of `solve` solves the board in play order and has one play per PLAYABLE square |
| Search.TryPlaysNone | src/main.rs:209-226 | the loop answers None exactly when no candidate leads to a solution |
| Search.TryPlaysWinner | src/main.rs:209-223 | the loop's answer is that of the first candidate that leads to a solution, with that play pushed last |
| Search.FirstWinnerShift | src/main.rs:209-223 | a first winner among the later candidates, after a failed first, is the first winner of the whole list |
| Search.SolveTakesFirst | src/main.rs:192-227 | on an unsolved board, the answer of `solve` begins with the first winning candidate in `get_plays` order, followed by the answer for the board that play leaves |
| Search.LegalEarlier | src/main.rs:125-176 | a play that is legal after a legal candidate play was already legal before it |
| Search.DeadStaysDead | src/main.rs:111-114 | a dead PLAYABLE square stays dead after any legal candidate play, which cannot start there |
| Search.DeadEndUnsolvable | src/main.rs:111-114 | no sequence of legal plays solves a board with a dead square, so the early return loses nothing |
| Search.SearchComplete | src/main.rs:196-227 | when `solve_inner` answers None, no sequence of legal candidate plays solves the board |
| Search.SolveComplete | src/main.rs:192-227 | `solve` answers exactly when some sequence of legal candidate plays solves the board |
| Solver.Map.constructor | src/main.rs:86-88 | the new board holds exactly the given grid; it also models `self.clone()` at line 217 |
| Solver.Map.Parse | src/main.rs:71-89 | the loop fails exactly when `ParseText` does, with the same error; otherwise the new `Map`'s grid is `ParseText`'s |
| Solver.Map.IsLegalPlay | src/main.rs:125-142 | the walk's answer is exactly `Legal` |
| Solver.Map.ApplyPlay | src/main.rs:152-176 | after the play, the grid is `Applied` of the old grid |
| Solver.Map.FillWalk | src/main.rs:157-175 | the walk that marks the origin FULL and then fills EMPTY squares until `count` are filled ends with exactly `Applied` of its grid |
| Solver.Map.IsSolved | src/main.rs:178-190 | the scan's answer is exactly `Solved` |
| Solver.Map.TryAddPlay | src/main.rs:95-101 | the play is pushed, and true returned, exactly when it is legal |
| Solver.Map.AddSquarePlays | src/main.rs:105-115 | a PLAYABLE square's legal plays are appended in order, and a play exists exactly when the square is not dead |
| Solver.Map.GetPlays | src/main.rs:91-123 | the loop's result is exactly `Plays`, including the early empty answer on a dead square |
| Solver.Map.SolveInner | src/main.rs:196-227 | the recursive search's answer is exactly `SearchFrom` |
| Solver.Map.Solve | src/main.rs:192-194 | the answer is exactly `SolveSpec`: the inner answer reversed |
| Solver.WalkStep | src/main.rs:166-175 | one step of the fill walk stays on the grid, within the bound, and moves to the next partial board |
| Solver.WalkDone | src/main.rs:166-176 | once `count` squares are filled, the partial board is `Applied` |
| Solver.PartialStep | src/main.rs:167-171 | at the ray's k-th square the partial board is EMPTY exactly where the old board was, and filling it gives the next partial board |
| Solver.NextRow | src/main.rs:103-104 | the end of one row of the scan is the start of the next |
| Solver.DeadEndNoPlays | src/main.rs:112-114 | a dead square means `get_plays` offers nothing |
| Solver.NoDeadSquare | src/main.rs:103-122 | a full scan without a dead square has found exactly `Plays` |
| Solver.TryPlaysStep | src/main.rs:209-224 | one turn of the search loop: the play can be applied, shrinks the PLAYABLE count, and the answer is the deeper search's or the rest of the loop's |
| Solver.ScanErrorStays | src/main.rs:75-77 | once the loop has failed, `?` returns that error for the whole text |

## Left out

- `main`, the reading of the map file and the printing of the solution are not modelled: they are I/O.
- The `depth` parameter of `solve_inner` and its progress printing are left out. Its only use is output, and its `u8` overflow after 255 levels is not modelled.
- Integer widths are left out: `Square.count` and `Play.count` are `u8`; `Play.x`, `Play.y`, `dx` and `dy` are `i8`; the casts `x as i8`, `y as i8` and `as usize` apply. The model uses unbounded integers. So on grids wider or taller than 127 squares, and for walks that run past ±127, the model does not show the wrap-around the source would have.
- The `Formatter` plumbing of both `Display` implementations is left out. `Render` and `RenderSquare` are functions returning the text, and a write error is not modelled.
- Solver.Map.IsLegalPlay: requires a unit direction, because every play `get_plays` builds has one (src/main.rs:106-109). With a longer direction such as (2, 0) the source's walk steps over squares, and with (0, 0) it can loop forever; neither case is modelled.
- Solver.Map.ApplyPlay: requires a unit direction, for the same reason as IsLegalPlay; the source does not panic on other directions. It also requires a legal play and an origin on the grid. Those two cases are where the source panics: the `is_legal_play` re-check at src/main.rs:153-155, and the `unwrap` of the origin at src/main.rs:162.
- Solver.Map.ApplyPlay: runs its walk, the static method `FillWalk`, on a copy of the grid and stores the result at the end. The source updates the squares of `self` in place.
- Solver.Map.TryAddPlay: requires a unit direction, as IsLegalPlay does. It is a method taking and returning the play list, in place of a closure that captures `plays`.
- Solver.Map.AddSquarePlays: a helper method holding the loop body of `get_plays` at a PLAYABLE square. The source writes the body inline.
- `Vec::reverse` in `solve` is the library call. It is modelled by the function `Reversed`.
- `Play` is `Copy`, and `solve_inner` pushes `play.clone()`. The model's plays are values, so no copy is needed.
- The TODO at line 120 of `get_plays`, detecting EMPTY squares that cannot be reached, is not implemented in the source. It is not modelled.
