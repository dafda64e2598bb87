/**
 * The loops of pass 1 of MATRIX_Load as the source writes them, each
 * proved to compute the function of module TableScan that specifies it.
 */
module Scan {
  import opened TextTable
  import opened TableScan

  /** `while (fscanf(fp, COMMENT_LINE, c) == 1) {}`: skips comment lines. */
  method SkipCommentLines(src: Source, p: Pos) returns (q: Pos)
    ensures q == SkipComments(src, p)
  {
    q := p;
    while q.line < |src| && (src[q.line].Comment? || AtLineEnd(src, q))
      invariant SkipComments(src, q) == SkipComments(src, p)
      decreases |src| - q.line
    {
      q := NextLine(q);
    }
  }

  /**
   * Pass 1: skip the leading comments, test the first value, count the
   * columns of the first line, then count the lines whose first value is
   * in range. As the source is written, no newline is looked for before
   * the column loop, so a first line of one value takes the next line's
   * first value as a second column (see ## Findings in README.md).
   */
  method ScanDims(src: Source, xmin: real, xmax: real, stale: real) returns (nl: nat, nc: nat)
    ensures Dims(nl, nc) == InferDims(src, xmin, xmax, stale, false)
  {
    var p := SkipCommentLines(src, Pos(0, 0));
    var first := ReadNumber(src, p);
    nl := match first
      case Got(v, _) => if InRange(v, xmin, xmax) then 1 else 0
      case AtEnd => if InRange(stale, xmin, xmax) then 1 else 0
      case NoMatch => 0;
    if first.Got? {
      p := first.next;
    }

    // Determine the number of columns
    nc := 1;
    ghost var columns := CountColumns(src, p, nc);
    while true
      invariant CountColumns(src, p, nc) == columns
      decreases |src| - p.line, Width(src, p.line) - p.col
    {
      var r := ReadNumber(src, p);
      if !r.Got? {
        break;
      }
      nc := nc + 1;
      if NewlineNext(src, r.next) {
        p := NextLine(r.next);
        break;
      }
      p := r.next;
    }
    assert (nc, p) == columns;

    // Determine the number of lines
    ghost var rows := CountRows(src, p, xmin, xmax, nl);
    while true
      invariant CountRows(src, p, xmin, xmax, nl) == rows
      decreases |src| - p.line
    {
      var r := ReadNumber(src, p);
      if !r.Got? {
        break;
      }
      if InRange(r.value, xmin, xmax) {
        nl := nl + 1;
      }
      p := NextLine(r.next);
    }
  }
}
