/**
 * The text file read by MATRIX_Load, seen one token at a time.
 *
 * A file is a sequence of lines with blank lines dropped (every pattern
 * the loader uses skips white space, newlines included, before a number
 * or a comment marker). A line is either a comment (its first non-blank
 * character is ';', '#' or '*') or a list of numbers separated by blanks;
 * a line that opens with anything else is `Numbers([])`.
 *
 * A cursor `Pos(line, col)` stands just after the `col`-th number of a
 * line; `col == 0` is the start of the line. The functions below are the
 * three stream operations of the loader: read a number the way "%lf"
 * does (blank space, newlines included, is skipped first), skip comment
 * lines, and test whether the next character is a newline.
 */
module TextTable {

  datatype Line =
    | Comment
    | Numbers(values: seq<real>)

  type Source = seq<Line>

  datatype Pos = Pos(line: nat, col: nat)

  /** Outcome of one "%lf" conversion: a value, a mismatch, or end of file (fscanf's EOF). */
  datatype Scan = Got(value: real, next: Pos) | NoMatch | AtEnd

  /** Number of values on a line; 0 past the end of the file and on comments. */
  function Width(src: Source, line: nat): nat
  {
    if line < |src| && src[line].Numbers? then |src[line].values| else 0
  }

  /** The cursor stands after the last number of its line: the next character is the newline. */
  predicate AtLineEnd(src: Source, p: Pos)
  {
    p.line < |src| && src[p.line].Numbers? && 0 < p.col && |src[p.line].values| <= p.col
  }

  /**
   * `fgetc` would return '\n' or EOF here: no value is left on the line,
   * so the next "%lf" reads from the next line; otherwise it reads the
   * next value of this line.
   */
  predicate NewlineNext(src: Source, p: Pos): (b: bool)
    ensures b && 0 < p.col ==> ReadNumber(src, p) == ReadNumber(src, NextLine(p))
    ensures !b && p.line < |src| && src[p.line].Numbers? && 0 < p.col ==>
      && p.col < |src[p.line].values|
      && ReadNumber(src, p) == Got(src[p.line].values[p.col], Pos(p.line, p.col + 1))
  {
    |src| <= p.line || AtLineEnd(src, p)
  }

  /** The start of the line after the one holding `p` (rest of the line and its newline consumed). */
  function NextLine(p: Pos): Pos
  {
    Pos(p.line + 1, 0)
  }

  /** One "%lf" conversion: skips blank space (newlines too), then reads a number if one is there. */
  function ReadNumber(src: Source, p: Pos): (r: Scan)
    decreases |src| - p.line
    ensures r.Got? ==>
      && p.line <= r.next.line < |src|
      && src[r.next.line].Numbers?
      && 0 < r.next.col <= |src[r.next.line].values|
      && r.value == src[r.next.line].values[r.next.col - 1]
      && (r.next.line == p.line ==> r.next.col == p.col + 1)
      && (r.next.line > p.line ==> r.next.col == 1)
      && r.next.line <= p.line + 1
      && (p.col == 0 ==> r.next.line == p.line)
    ensures r.AtEnd? <==> |src| <= p.line || (AtLineEnd(src, p) && p.line + 1 == |src|)
  {
    if |src| <= p.line then AtEnd
    else match src[p.line]
      case Comment => NoMatch
      case Numbers(vs) =>
        if p.col < |vs| then Got(vs[p.col], Pos(p.line, p.col + 1))
        else if p.col == 0 then NoMatch
        else ReadNumber(src, NextLine(p))
  }

  /** The COMMENT_LINE loop: skips blank space and whole comment lines. */
  function SkipComments(src: Source, p: Pos): (q: Pos)
    decreases |src| - p.line
    ensures q == p || (q.line > p.line && q.col == 0)
    ensures p.line <= |src| ==> q.line <= |src|
    ensures q.line < |src| ==> src[q.line].Numbers? && !AtLineEnd(src, q)
  {
    if |src| <= p.line then p
    else if src[p.line].Comment? || AtLineEnd(src, p) then SkipComments(src, NextLine(p))
    else p
  }

  /**
   * The range test of the loader on normalised bounds: a degenerate range
   * (both bounds equal) accepts every value.
   */
  function InRange(v: real, xmin: real, xmax: real): (b: bool)
    ensures xmin == xmax ==> b
    ensures xmin != xmax ==> (b <==> (xmin <= v <= xmax || xmax <= v <= xmin))
  {
    var lo := if xmin < xmax then xmin else xmax;
    var hi := if xmin < xmax then xmax else xmin;
    lo == hi || (lo <= v && v <= hi)
  }
}
