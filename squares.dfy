/**
 * The squares of a board and their one-character encoding
 * (`Square::parse`, `from_hex`, `to_hex` and `Display for Square`).
 */
module Squares {
  import opened Wrappers

  datatype SquareState = Block | Empty | Full | Playable

  /** `count` is meaningful only for a Playable square; parsing gives the others 0. */
  datatype Square = Square(state: SquareState, count: nat)

  /** A board: rows of squares, which may differ in length. */
  type Grid = seq<seq<Square>>

  /** The characters `from_hex` accepts; any other makes it panic. */
  predicate IsHexDigit(c: char) {
    '1' <= c <= '9' || 'a' <= c <= 'f'
  }

  /** `to_hex`: 1..9 become '1'..'9', 10..16 become 'a'..'g'; it panics outside 1..16. */
  function ToHex(i: nat): (c: char)
    requires 1 <= i <= 16
    ensures '1' <= c <= '9' <==> i <= 9
    ensures 'a' <= c <= 'g' <==> 10 <= i
  {
    if i <= 9 then ('0' as int + i) as char else ('a' as int + i - 10) as char
  }

  /** `from_hex`: the value of a digit '1'..'9' or a letter 'a'..'f'. */
  function FromHex(c: char): (n: nat)
    requires IsHexDigit(c)
    ensures 1 <= n <= 15
    ensures n <= 9 <==> '1' <= c <= '9'
    ensures ToHex(n) == c
  {
    if '1' <= c <= '9' then c as int - '1' as int + 1 else c as int - 'a' as int + 10
  }

  /** Decoding an encoded value gives it back, for every value `from_hex` can produce. */
  lemma HexRoundTrip(i: nat)
    requires 1 <= i <= 15
    ensures IsHexDigit(ToHex(i)) && FromHex(ToHex(i)) == i
  {
  }

  /** The ends of the two ranges: 'f' decodes to 15, and 16 encodes as 'g'. */
  lemma HexEdges()
    ensures FromHex('f') == 15 && ToHex(16) == 'g'
  {
  }

  /** The message `Square::parse` returns for a character it refuses. */
  function NotASquare(c: char): string {
    "Couldn't parse " + [c] + " as a Square"
  }

  /** A square as the parser builds it. */
  predicate Canonical(s: Square) {
    match s.state
    case Playable => 1 <= s.count <= 9
    case Block => s.count == 0
    case Empty => s.count == 0
    case Full => false
  }

  /** A square that `Display` can write without panicking. */
  predicate Displayable(s: Square) {
    s.state == Playable ==> 1 <= s.count <= 16
  }

  /** `Display for Square`. */
  function RenderSquare(s: Square): (c: char)
    requires Displayable(s)
    ensures c == 'X' <==> s.state == Full
    ensures c == '.' <==> s.state == Empty
    ensures c == ' ' <==> s.state == Block
    ensures s.state == Playable <==> '1' <= c <= '9' || 'a' <= c <= 'g'
  {
    match s.state
    case Playable => ToHex(s.count)
    case Full => 'X'
    case Empty => '.'
    case Block => ' '
  }

  /**
   * `Square::parse`: only '1'..'9' give a Playable square; letters, '0' and
   * every other character are refused with an error naming the character.
   */
  function ParseSquare(c: char): (r: Result<Square, string>)
    ensures r.Ok? <==> '1' <= c <= '9' || c == ' ' || c == '.'
    ensures r.Ok? ==> Canonical(r.value) && RenderSquare(r.value) == c
    ensures r.Ok? && r.value.state == Playable ==> r.value.count == c as int - '0' as int
    ensures r.Err? ==> r.error == NotASquare(c)
  {
    if '1' <= c <= '9' then
      Ok(Square(Playable, FromHex(c)))
    else if c == ' ' then
      Ok(Square(Block, 0))
    else if c == '.' then
      Ok(Square(Empty, 0))
    else
      Err(NotASquare(c))
  }

  /** Rendering a parsed square and parsing the character gives the square back. */
  lemma SquareRoundTrip(s: Square)
    requires Canonical(s)
    ensures ParseSquare(RenderSquare(s)) == Ok(s)
  {
  }
}
