/**
 * The board's text form: `Map::parse` as a specification function, and
 * `Display for Map` as `Render`.
 */
module Text {
  import opened Wrappers
  import opened Squares

  /** `char::is_ascii_hexdigit`. */
  predicate IsAsciiHexDigit(c: char) {
    '0' <= c <= '9' || 'a' <= c <= 'f' || 'A' <= c <= 'F'
  }

  /** The characters the parser hands to `Square::parse`. */
  predicate Kept(c: char) {
    IsAsciiHexDigit(c) || c == ' ' || c == '.'
  }

  /** The characters that the parser hands on and `Square::parse` then refuses. */
  predicate Rejected(c: char) {
    c == '0' || 'a' <= c <= 'f' || 'A' <= c <= 'F'
  }

  /** The parser's two accumulators: the finished rows and the row being read. */
  datatype ScanState = ScanState(lines: Grid, line: seq<Square>)

  /** One character of the parser's loop. */
  function Step(st: ScanState, c: char): Result<ScanState, string> {
    if Kept(c) then
      match ParseSquare(c)
      case Ok(sq) => Ok(ScanState(st.lines, st.line + [sq]))
      case Err(e) => Err(e)
    else if c == '\n' then
      Ok(ScanState(st.lines + [st.line], []))
    else
      Ok(st)
  }

  /** The accumulators after the parser has read all of `s`, or the error it stopped at. */
  function Scan(s: string): Result<ScanState, string> {
    if s == [] then
      Ok(ScanState([], []))
    else
      match Scan(s[..|s| - 1])
      case Err(e) => Err(e)
      case Ok(st) => Step(st, s[|s| - 1])
  }

  /** `Map::parse`: the row being read is pushed as the last row at the end. */
  function ParseText(s: string): Result<Grid, string> {
    match Scan(s)
    case Err(e) => Err(e)
    case Ok(st) => Ok(st.lines + [st.line])
  }

  function NewlineCount(s: string): nat {
    if s == [] then 0 else NewlineCount(s[..|s| - 1]) + (if s[|s| - 1] == '\n' then 1 else 0)
  }

  /** `s` without the characters the parser skips. */
  function Clean(s: string): string {
    if s == [] then
      []
    else
      var c := s[|s| - 1];
      Clean(s[..|s| - 1]) + (if Kept(c) || c == '\n' then [c] else [])
  }

  predicate CanonicalRow(row: seq<Square>) {
    forall i :: 0 <= i < |row| ==> Canonical(row[i])
  }

  predicate CanonicalGrid(g: Grid) {
    forall y :: 0 <= y < |g| ==> CanonicalRow(g[y])
  }

  predicate DisplayableRow(row: seq<Square>) {
    forall i :: 0 <= i < |row| ==> Displayable(row[i])
  }

  predicate DisplayableGrid(g: Grid) {
    forall y :: 0 <= y < |g| ==> DisplayableRow(g[y])
  }

  /** The squares of one row, written one character each. */
  function RenderRow(row: seq<Square>): (r: string)
    requires DisplayableRow(row)
    ensures |r| == |row|
    ensures forall i :: 0 <= i < |row| ==> r[i] == RenderSquare(row[i])
  {
    if row == [] then [] else RenderRow(row[..|row| - 1]) + [RenderSquare(row[|row| - 1])]
  }

  /** `Display for Map`: every row, the last included, is followed by a newline. */
  function Render(g: Grid): string
    requires DisplayableGrid(g)
  {
    if g == [] then [] else Render(g[..|g| - 1]) + RenderRow(g[|g| - 1]) + "\n"
  }

  /** Rows of a successful scan: one finished row per newline read, all squares canonical. */
  lemma {:induction false} ScanShape(s: string)
    requires Scan(s).Ok?
    ensures |Scan(s).value.lines| == NewlineCount(s)
    ensures CanonicalGrid(Scan(s).value.lines) && CanonicalRow(Scan(s).value.line)
  {
    if s != [] {
      ScanShape(s[..|s| - 1]);
    }
  }

  /**
   * A successful parse has one row more than the text has newlines, and
   * every square is BLOCK, EMPTY, or PLAYABLE with a count in 1..9.
   */
  lemma ParseShape(s: string)
    requires ParseText(s).Ok?
    ensures |ParseText(s).value| == NewlineCount(s) + 1
    ensures CanonicalGrid(ParseText(s).value)
  {
    ScanShape(s);
  }

  /** `s[i]` is the first character of `s` that the parser refuses. */
  predicate FirstRejectedAt(s: string, i: int) {
    0 <= i < |s| && Rejected(s[i]) && forall j :: 0 <= j < i ==> !Rejected(s[j])
  }

  /** One character of the loop fails exactly on a refused character, and names it. */
  lemma StepFails(st: ScanState, c: char)
    ensures Step(st, c).Err? <==> Rejected(c)
    ensures Step(st, c).Err? ==> Step(st, c).error == NotASquare(c)
  {
  }

  lemma {:induction false} ScanFails(s: string)
    ensures Scan(s).Err? <==> exists i :: 0 <= i < |s| && Rejected(s[i])
    ensures Scan(s).Err? ==> exists i :: FirstRejectedAt(s, i) && Scan(s).error == NotASquare(s[i])
  {
    if s != [] {
      var n := |s| - 1;
      var t := s[..n];
      ScanFails(t);
      assert forall j :: 0 <= j < n ==> s[j] == t[j];
      if Scan(t).Err? {
        var i :| FirstRejectedAt(t, i) && Scan(t).error == NotASquare(t[i]);
        assert FirstRejectedAt(s, i);
      } else {
        StepFails(Scan(t).value, s[n]);
        if Rejected(s[n]) {
          assert FirstRejectedAt(s, n);
        } else {
          assert forall j :: 0 <= j < |s| ==> !Rejected(s[j]);
        }
      }
    }
  }

  /**
   * The parse fails exactly when the text holds a '0' or a letter 'a'..'f' or
   * 'A'..'F', and the error names the first of them.
   */
  lemma ParseFails(s: string)
    ensures ParseText(s).Err? <==> exists i :: 0 <= i < |s| && Rejected(s[i])
    ensures ParseText(s).Err? ==>
      exists i :: FirstRejectedAt(s, i) && ParseText(s).error == NotASquare(s[i])
  {
    ScanFails(s);
  }

  /** Characters that are neither kept nor a newline make no difference to the parse. */
  lemma {:induction false} ScanIgnoresOthers(s: string)
    ensures Scan(s) == Scan(Clean(s))
  {
    if s != [] {
      var t := s[..|s| - 1];
      var c := s[|s| - 1];
      ScanIgnoresOthers(t);
      if Kept(c) || c == '\n' {
        assert (Clean(t) + [c])[..|Clean(t)|] == Clean(t);
      } else {
        assert Clean(s) == Clean(t);
      }
    }
  }

  lemma ParseIgnoresOthers(s: string)
    ensures ParseText(s) == ParseText(Clean(s))
  {
    ScanIgnoresOthers(s);
  }

  /** The text alphabet that parses and renders back unchanged. */
  predicate InAlphabet(c: char) {
    '1' <= c <= '9' || c == ' ' || c == '.' || c == '\n'
  }

  lemma RenderRowAppend(row: seq<Square>, sq: Square)
    requires DisplayableRow(row) && Displayable(sq)
    ensures DisplayableRow(row + [sq])
    ensures RenderRow(row + [sq]) == RenderRow(row) + [RenderSquare(sq)]
  {
    assert (row + [sq])[..|row|] == row;
  }

  lemma RenderAppend(g: Grid, row: seq<Square>)
    requires DisplayableGrid(g) && DisplayableRow(row)
    ensures DisplayableGrid(g + [row])
    ensures Render(g + [row]) == Render(g) + RenderRow(row) + "\n"
  {
    assert (g + [row])[..|g|] == g;
  }

  /** One character of the alphabet extends the rendering of the accumulators by itself. */
  lemma StepRenders(st: ScanState, c: char)
    requires DisplayableGrid(st.lines) && DisplayableRow(st.line) && InAlphabet(c)
    ensures Step(st, c).Ok?
    ensures DisplayableGrid(Step(st, c).value.lines) && DisplayableRow(Step(st, c).value.line)
    ensures Render(Step(st, c).value.lines) + RenderRow(Step(st, c).value.line)
      == Render(st.lines) + RenderRow(st.line) + [c]
  {
    if c == '\n' {
      RenderAppend(st.lines, st.line);
    } else {
      RenderRowAppend(st.line, ParseSquare(c).value);
    }
  }

  lemma {:induction false} ScanRenders(s: string)
    requires forall i :: 0 <= i < |s| ==> InAlphabet(s[i])
    ensures Scan(s).Ok?
    ensures DisplayableGrid(Scan(s).value.lines) && DisplayableRow(Scan(s).value.line)
    ensures Render(Scan(s).value.lines) + RenderRow(Scan(s).value.line) == s
  {
    if s != [] {
      var t := s[..|s| - 1];
      var c := s[|s| - 1];
      assert s == t + [c];
      assert forall i :: 0 <= i < |t| ==> t[i] == s[i];
      ScanRenders(t);
      StepRenders(Scan(t).value, c);
    }
  }

  /**
   * Text over '1'..'9', ' ', '.' and newline parses, and renders back as
   * itself followed by one newline.
   */
  lemma RenderParseRoundTrip(s: string)
    requires forall i :: 0 <= i < |s| ==> InAlphabet(s[i])
    ensures ParseText(s).Ok? && DisplayableGrid(ParseText(s).value)
    ensures Render(ParseText(s).value) == s + "\n"
  {
    ScanRenders(s);
    var st := Scan(s).value;
    RenderAppend(st.lines, st.line);
  }

  lemma {:induction false} CleanAlphabet(s: string)
    requires forall i :: 0 <= i < |s| ==> !Rejected(s[i])
    ensures forall i :: 0 <= i < |Clean(s)| ==> InAlphabet(Clean(s)[i])
  {
    if s != [] {
      CleanAlphabet(s[..|s| - 1]);
    }
  }

  /**
   * Text with no refused character parses, and the board renders as the text
   * with the skipped characters removed, followed by one newline.
   */
  lemma ParseRendersClean(s: string)
    requires forall i :: 0 <= i < |s| ==> !Rejected(s[i])
    ensures ParseText(s).Ok? && DisplayableGrid(ParseText(s).value)
    ensures Render(ParseText(s).value) == Clean(s) + "\n"
  {
    CleanAlphabet(s);
    ParseIgnoresOthers(s);
    RenderParseRoundTrip(Clean(s));
  }
}
