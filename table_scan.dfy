/**
 * The two passes MATRIX_Load makes over its file.
 *
 * Pass 1 (only when the caller leaves a dimension at 0) infers the number
 * of columns from the first data line and the number of rows from the
 * first value of every line that follows. Pass 2 rewinds and fills rows,
 * keeping those whose first value is in range.
 *
 * Every loop of the source is written here as a function with an
 * accumulator, so that a loop in the imperative model can carry "the
 * function applied to the current state equals the function applied to
 * the initial state" as its invariant.
 */
module TableScan {
  import opened ErrorCodes
  import opened TextTable

  datatype Dims = Dims(nl: nat, nc: nat)

  /**
   * The column loop of pass 1: every number read adds a column; the loop
   * stops at the first read that fails or at the first newline found right
   * after a number. Returns the count and the cursor after the loop.
   */
  function CountColumns(src: Source, p: Pos, nc: nat): (r: (nat, Pos))
    decreases |src| - p.line, Width(src, p.line) - p.col
    ensures nc <= r.0
  {
    match ReadNumber(src, p)
    case Got(_, q) =>
      if NewlineNext(src, q) then (nc + 1, NextLine(q)) else CountColumns(src, q, nc + 1)
    case _ => (nc, p)
  }

  /**
   * The row loop of pass 1 ("%lf%*[^\n]\n"): reads the first number of
   * each line, discards the rest of the line, and counts the values in
   * range. It stops at the first line that does not open with a number.
   */
  function CountRows(src: Source, p: Pos, xmin: real, xmax: real, nl: nat): (n: nat)
    decreases |src| - p.line
    ensures nl <= n
    ensures p.line <= |src| ==> n <= nl + |src| - p.line
  {
    match ReadNumber(src, p)
    case Got(v, q) => CountRows(src, NextLine(q), xmin, xmax, if InRange(v, xmin, xmax) then nl + 1 else nl)
    case _ => nl
  }

  /**
   * Pass 1. `stale` is the value left in the uninitialised variable
   * `tempValue` when the very first conversion meets the end of the file:
   * fscanf then returns EOF, which is non-zero, so the range test is made
   * on that value. With `lookahead`, a newline right after the first value
   * ends the column count at 1 before the column loop runs; without it (as
   * the source is written) the column loop's first conversion skips that
   * newline and takes the next line's first value as a second column.
   */
  function InferDims(src: Source, xmin: real, xmax: real, stale: real, lookahead: bool): (d: Dims)
    ensures 1 <= d.nc
  {
    var p0 := SkipComments(src, Pos(0, 0));
    var first := ReadNumber(src, p0);
    var nl := match first
      case Got(v, _) => if InRange(v, xmin, xmax) then 1 else 0
      case AtEnd => if InRange(stale, xmin, xmax) then 1 else 0
      case NoMatch => 0;
    var p1 := if first.Got? then first.next else p0;
    var (nc, p2) :=
      if lookahead && first.Got? && NewlineNext(src, p1) then (1, NextLine(p1)) else CountColumns(src, p1, 1);
    Dims(CountRows(src, p2, xmin, xmax, nl), nc)
  }

  /** The inner loop of pass 2: `n` more NEXT_DOUBLE conversions appended to `acc`. */
  function ReadValues(src: Source, p: Pos, n: nat, acc: seq<real>): (r: Option<(seq<real>, Pos)>)
    decreases n
    ensures r.Some? ==> |r.value.0| == |acc| + n && r.value.0[..|acc|] == acc
  {
    if n == 0 then Some((acc, p))
    else match ReadNumber(src, p)
      case Got(v, q) => ReadValues(src, q, n - 1, acc + [v])
      case _ => None
  }

  /** Outcome of pass 2: all rows, or the value of the row counter `i` when it failed. */
  datatype FillResult = Filled(rows: seq<seq<real>>) | FillFailed(counted: nat)

  /** What one iteration of the fill loop does. */
  datatype RowStep =
    | Accept(row: seq<real>, next: Pos)  // a row in range, read whole and followed by a newline
    | Reject(next: Pos)                  // a first value out of range: the row counter stays
    | Broken(counted: bool)              // a failed read or a missing newline; `counted` if the counter moved

  /** `q` is further on in the file than `p`, and still within it. */
  predicate Later(src: Source, p: Pos, q: Pos)
  {
    (p.line < q.line <= |src|) || (q.line == p.line && p.col < q.col <= Width(src, p.line))
  }

  /**
   * One iteration of the fill loop from cursor `p`: comment lines are
   * skipped (the COMMENT_LINE loop); a row whose first value is in range is
   * read in full and must be followed by a newline; a row whose first value
   * is out of range is not counted. What the cursor does after such a
   * value is the one point where the two variants differ: with `skipRest`
   * the rest of the line is discarded (as pass 1 does), without it only
   * that one value has been consumed and the next value of the same line is
   * taken as the next candidate first value (as the source is written).
   */
  function ReadRow(src: Source, p: Pos, nc: nat, xmin: real, xmax: real, skipRest: bool): (r: RowStep)
    requires 1 <= nc
    decreases |src| - p.line
    ensures r.Accept? ==> |r.row| == nc && InRange(r.row[0], xmin, xmax)
    ensures r.Reject? ==> Later(src, p, r.next)
  {
    if p.line < |src| && (src[p.line].Comment? || AtLineEnd(src, p)) then
      ReadRow(src, NextLine(p), nc, xmin, xmax, skipRest)
    else match ReadNumber(src, p)
      case Got(v, q) =>
        if InRange(v, xmin, xmax) then
          match ReadValues(src, q, nc - 1, [v])
          case None => Broken(true)
          case Some((row, e)) => if NewlineNext(src, e) then Accept(row, NextLine(e)) else Broken(true)
        else
          Reject(if skipRest then NextLine(q) else q)
      case _ => Broken(false)
  }

  /** Skipping the comment lines first does not change what the fill loop reads. */
  lemma {:induction false} ReadRowAfterComments(src: Source, p: Pos, nc: nat, xmin: real, xmax: real, skipRest: bool)
    requires 1 <= nc
    ensures ReadRow(src, SkipComments(src, p), nc, xmin, xmax, skipRest) == ReadRow(src, p, nc, xmin, xmax, skipRest)
    decreases |src| - p.line
  {
    if p.line < |src| && (src[p.line].Comment? || AtLineEnd(src, p)) {
      ReadRowAfterComments(src, NextLine(p), nc, xmin, xmax, skipRest);
    }
  }

  /** Pass 2 from cursor `p` with `rows` already filled. */
  function Fill(src: Source, p: Pos, nl: nat, nc: nat, xmin: real, xmax: real,
                skipRest: bool, rows: seq<seq<real>>): (r: FillResult)
    requires 1 <= nc && |rows| <= nl
    ensures r.Filled? ==> |r.rows| == nl
    ensures r.FillFailed? ==> |rows| <= r.counted <= nl
    decreases nl - |rows|, |src| - p.line, Width(src, p.line) - p.col
  {
    if |rows| == nl then Filled(rows)
    else match ReadRow(src, p, nc, xmin, xmax, skipRest)
      case Accept(row, next) => Fill(src, next, nl, nc, xmin, xmax, skipRest, rows + [row])
      case Reject(next) => Fill(src, next, nl, nc, xmin, xmax, skipRest, rows)
      case Broken(counted) => FillFailed(if counted then |rows| + 1 else |rows|)
  }

  /** One iteration of pass 2, written out from the cursor left after the comment lines. */
  lemma FillStep(src: Source, p: Pos, nl: nat, nc: nat, xmin: real, xmax: real,
                 skipRest: bool, rows: seq<seq<real>>)
    requires 1 <= nc && |rows| < nl
    ensures var s := SkipComments(src, p);
      Fill(src, p, nl, nc, xmin, xmax, skipRest, rows) ==
        match ReadNumber(src, s)
        case Got(v, q) =>
          if !InRange(v, xmin, xmax) then
            Fill(src, if skipRest then NextLine(q) else q, nl, nc, xmin, xmax, skipRest, rows)
          else (match ReadValues(src, q, nc - 1, [v])
            case None => FillFailed(|rows| + 1)
            case Some((row, e)) =>
              if NewlineNext(src, e) then Fill(src, NextLine(e), nl, nc, xmin, xmax, skipRest, rows + [row])
              else FillFailed(|rows| + 1))
        case _ => FillFailed(|rows|)
  {
    ReadRowAfterComments(src, p, nc, xmin, xmax, skipRest);
  }

  /**
   * Pass 2 either fills exactly `nl` rows of `nc` values, extending those
   * already filled, or fails with the row counter between them and `nl`.
   */
  lemma {:induction false} FillShape(src: Source, p: Pos, nl: nat, nc: nat, xmin: real, xmax: real,
                                     skipRest: bool, rows: seq<seq<real>>)
    requires 1 <= nc && |rows| <= nl
    ensures var r := Fill(src, p, nl, nc, xmin, xmax, skipRest, rows);
      && (r.Filled? ==>
            && |r.rows| == nl
            && r.rows[..|rows|] == rows
            && forall k :: |rows| <= k < nl ==> |r.rows[k]| == nc)
      && (r.FillFailed? ==> |rows| <= r.counted <= nl)
    decreases nl - |rows|, |src| - p.line, Width(src, p.line) - p.col
  {
    if |rows| < nl {
      match ReadRow(src, p, nc, xmin, xmax, skipRest)
      case Accept(row, next) =>
        FillShape(src, next, nl, nc, xmin, xmax, skipRest, rows + [row]);
        var r := Fill(src, next, nl, nc, xmin, xmax, skipRest, rows + [row]);
        if r.Filled? {
          assert r.rows[..|rows|] == (rows + [row])[..|rows|];
          assert r.rows[|rows|] == row;
        }
      case Reject(next) =>
        FillShape(src, next, nl, nc, xmin, xmax, skipRest, rows);
      case Broken(_) =>
    }
  }

  // ---------------------------------------------------------------------
  // Reference definition: what a well-formed table holds
  // ---------------------------------------------------------------------

  /** Every data line of the table has exactly `nc` values (comments may sit anywhere). */
  ghost predicate Table(src: Source, nc: nat)
  {
    forall k :: 0 <= k < |src| && src[k].Numbers? ==> |src[k].values| == nc
  }

  /** The data lines from line `k` on whose first value is in range, in file order. */
  function AcceptedFrom(src: Source, k: nat, xmin: real, xmax: real): seq<seq<real>>
    decreases |src| - k
  {
    if |src| <= k then []
    else match src[k]
      case Comment => AcceptedFrom(src, k + 1, xmin, xmax)
      case Numbers(vs) =>
        if |vs| > 0 && InRange(vs[0], xmin, xmax) then [vs] + AcceptedFrom(src, k + 1, xmin, xmax)
        else AcceptedFrom(src, k + 1, xmin, xmax)
  }

  /** Every accepted row is a data line of the table whose first value passes the range test. */
  lemma {:induction false} AcceptedRows(src: Source, k: nat, xmin: real, xmax: real)
    ensures forall i :: 0 <= i < |AcceptedFrom(src, k, xmin, xmax)| ==>
      var row := AcceptedFrom(src, k, xmin, xmax)[i];
      0 < |row| && InRange(row[0], xmin, xmax) && exists j :: k <= j < |src| && src[j] == Numbers(row)
    decreases |src| - k
  {
    if k < |src| {
      AcceptedRows(src, k + 1, xmin, xmax);
    }
  }

  /** Skipping comments from the start of a line reaches the next data line and loses no row. */
  lemma {:induction false} SkipToData(src: Source, k: nat, xmin: real, xmax: real)
    requires k <= |src|
    ensures var q := SkipComments(src, Pos(k, 0));
      && q.col == 0 && k <= q.line <= |src|
      && (q.line < |src| ==> src[q.line].Numbers?)
      && (forall i :: k <= i < q.line ==> src[i].Comment?)
      && AcceptedFrom(src, k, xmin, xmax) == AcceptedFrom(src, q.line, xmin, xmax)
    decreases |src| - k
  {
    if k < |src| && src[k].Comment? {
      SkipToData(src, k + 1, xmin, xmax);
    }
  }

  /**
   * Reading `n` numbers that are still on the cursor's line yields exactly
   * them and leaves the cursor after the last of them, on the same line.
   */
  lemma {:induction false} ReadValuesInLine(src: Source, k: nat, c: nat, n: nat, acc: seq<real>)
    requires k < |src| && src[k].Numbers? && c + n <= |src[k].values|
    ensures ReadValues(src, Pos(k, c), n, acc) == Some((acc + src[k].values[c..c + n], Pos(k, c + n)))
    decreases n
  {
    var vs := src[k].values;
    if n == 0 {
      assert acc + vs[c..c] == acc;
    } else {
      assert ReadNumber(src, Pos(k, c)) == Got(vs[c], Pos(k, c + 1));
      ReadValuesInLine(src, k, c + 1, n - 1, acc + [vs[c]]);
      assert acc + [vs[c]] + vs[c + 1..c + n] == acc + vs[c..c + n];
    }
  }

  /** `a + b` conversions are `a` conversions followed by `b` more from where they stopped. */
  lemma {:induction false} ReadValuesSplit(src: Source, p: Pos, a: nat, b: nat, acc: seq<real>)
    ensures ReadValues(src, p, a + b, acc) ==
      match ReadValues(src, p, a, acc)
      case None => None
      case Some((r, q)) => ReadValues(src, q, b, r)
    decreases a
  {
    if a > 0 {
      match ReadNumber(src, p)
      case Got(v, q) => ReadValuesSplit(src, q, a - 1, b, acc + [v]);
      case _ =>
    }
  }

  /** The fill loop fails with the row counter unchanged when only comments remain. */
  lemma RowAtEnd(src: Source, k: nat, nc: nat, xmin: real, xmax: real, skipRest: bool)
    requires 1 <= nc
    requires |src| <= SkipComments(src, Pos(k, 0)).line
    ensures ReadRow(src, Pos(k, 0), nc, xmin, xmax, skipRest) == Broken(false)
  {
    ReadRowAfterComments(src, Pos(k, 0), nc, xmin, xmax, skipRest);
    assert ReadNumber(src, SkipComments(src, Pos(k, 0))) == AtEnd;
  }

  /**
   * The fill loop reads the next data line of `nc` values whole and keeps
   * it when its first value is in range. Otherwise only that first value
   * is consumed, and with `skipRest` the rest of the line as well.
   */
  lemma RowData(src: Source, k: nat, nc: nat, xmin: real, xmax: real, skipRest: bool)
    requires 1 <= nc
    requires var j := SkipComments(src, Pos(k, 0)).line;
      j < |src| && SkipComments(src, Pos(k, 0)).col == 0 && src[j].Numbers? && |src[j].values| == nc
    ensures var j := SkipComments(src, Pos(k, 0)).line;
      var vs := src[j].values;
      ReadRow(src, Pos(k, 0), nc, xmin, xmax, skipRest) ==
        if InRange(vs[0], xmin, xmax) then Accept(vs, Pos(j + 1, 0))
        else Reject(if skipRest then Pos(j + 1, 0) else Pos(j, 1))
  {
    ReadRowAfterComments(src, Pos(k, 0), nc, xmin, xmax, skipRest);
    var s := SkipComments(src, Pos(k, 0));
    var vs := src[s.line].values;
    assert ReadNumber(src, s) == Got(vs[0], Pos(s.line, 1));
    if InRange(vs[0], xmin, xmax) {
      ReadValuesInLine(src, s.line, 1, nc - 1, [vs[0]]);
      assert [vs[0]] + vs[1..nc] == vs;
      assert NewlineNext(src, Pos(s.line, nc));
    }
  }

  /**
   * A data line of more than `nc` values whose first value is in range
   * fails the newline check: the row counter moves and the loop stops.
   */
  lemma LongRow(src: Source, k: nat, nc: nat, xmin: real, xmax: real, skipRest: bool)
    requires 1 <= nc && k < |src| && src[k].Numbers? && nc < |src[k].values|
    requires InRange(src[k].values[0], xmin, xmax)
    ensures ReadRow(src, Pos(k, 0), nc, xmin, xmax, skipRest) == Broken(true)
  {
    var vs := src[k].values;
    assert ReadNumber(src, Pos(k, 0)) == Got(vs[0], Pos(k, 1));
    ReadValuesInLine(src, k, 1, nc - 1, [vs[0]]);
  }

  /**
   * A data line of fewer than `nc` values whose first value is in range:
   * the conversions cross its end and take the missing values from line
   * `k + 1`. When that line holds exactly the missing values the two lines
   * form one row; when it holds more, or is no data line at all, the
   * iteration fails with the row counter moved.
   */
  lemma ShortRow(src: Source, k: nat, nc: nat, xmin: real, xmax: real, skipRest: bool)
    requires 1 <= nc && k < |src| && src[k].Numbers?
    requires 1 <= |src[k].values| < nc && InRange(src[k].values[0], xmin, xmax)
    requires var n := Width(src, k + 1); n == 0 || nc - |src[k].values| <= n
    ensures var vs := src[k].values;
      ReadRow(src, Pos(k, 0), nc, xmin, xmax, skipRest) ==
        if Width(src, k + 1) == nc - |vs| then Accept(vs + src[k + 1].values, Pos(k + 2, 0)) else Broken(true)
  {
    var vs := src[k].values;
    var m := |vs|;
    assert ReadNumber(src, Pos(k, 0)) == Got(vs[0], Pos(k, 1));
    ShortRowValues(src, k, nc);
    if Width(src, k + 1) != 0 {
      var ws := src[k + 1].values;
      ReadValuesInLine(src, k + 1, 0, nc - m, vs);
      if |ws| == nc - m {
        assert ws[0..nc - m] == ws;
        assert NewlineNext(src, Pos(k + 1, nc - m));
      }
    }
  }

  /** The rest of a short row is read from the start of the next line. */
  lemma ShortRowValues(src: Source, k: nat, nc: nat)
    requires k < |src| && src[k].Numbers? && 1 <= |src[k].values| < nc
    ensures var vs := src[k].values;
      ReadValues(src, Pos(k, 1), nc - 1, [vs[0]]) == ReadValues(src, Pos(k + 1, 0), nc - |vs|, vs)
  {
    var vs := src[k].values;
    var m := |vs|;
    ReadValuesSplit(src, Pos(k, 1), m - 1, nc - m, [vs[0]]);
    ReadValuesInLine(src, k, 1, m - 1, [vs[0]]);
    assert [vs[0]] + vs[1..m] == vs;
    assert ReadNumber(src, Pos(k, m)) == ReadNumber(src, Pos(k + 1, 0));
  }


  /**
   * Pass 2 (rest of line skipped) on a well-formed table reproduces the
   * accepted rows in file order: comments anywhere are ignored, rows out of
   * range are dropped, and running out of accepted rows before `nl` fails
   * with the row counter at the number of rows found.
   */
  lemma {:induction false} FillTable(src: Source, k: nat, nl: nat, nc: nat, xmin: real, xmax: real,
                                     rows: seq<seq<real>>)
    requires 1 <= nc && |rows| <= nl && k <= |src|
    requires Table(src, nc)
    ensures Fill(src, Pos(k, 0), nl, nc, xmin, xmax, true, rows) == Expected(src, k, nl, xmin, xmax, rows)
    decreases |src| - k
  {
    if |rows| < nl {
      SkipToData(src, k, xmin, xmax);
      var s := SkipComments(src, Pos(k, 0));
      if s.line < |src| {
        var vs := src[s.line].values;
        var rows' := if InRange(vs[0], xmin, xmax) then rows + [vs] else rows;
        RowData(src, k, nc, xmin, xmax, true);
        assert Fill(src, Pos(k, 0), nl, nc, xmin, xmax, true, rows)
            == Fill(src, Pos(s.line + 1, 0), nl, nc, xmin, xmax, true, rows');
        FillTable(src, s.line + 1, nl, nc, xmin, xmax, rows');
        ExpectedStep(src, k, s.line, nl, xmin, xmax, rows);
      } else {
        RowAtEnd(src, k, nc, xmin, xmax, true);
        assert Fill(src, Pos(k, 0), nl, nc, xmin, xmax, true, rows) == FillFailed(|rows|);
        ExpectedStep(src, k, s.line, nl, xmin, xmax, rows);
      }
    }
  }

  /** What pass 2 should produce from line `k` with `rows` already filled. */
  function Expected(src: Source, k: nat, nl: nat, xmin: real, xmax: real, rows: seq<seq<real>>): FillResult
    requires |rows| <= nl
  {
    var acc := AcceptedFrom(src, k, xmin, xmax);
    if nl <= |rows| + |acc| then Filled(rows + acc[..nl - |rows|]) else FillFailed(|rows| + |acc|)
  }

  lemma ExpectedStep(src: Source, k: nat, j: nat, nl: nat, xmin: real, xmax: real, rows: seq<seq<real>>)
    requires |rows| < nl && k <= j <= |src|
    requires AcceptedFrom(src, k, xmin, xmax) == AcceptedFrom(src, j, xmin, xmax)
    requires j < |src| ==> src[j].Numbers? && |src[j].values| > 0
    ensures j == |src| ==> Expected(src, k, nl, xmin, xmax, rows) == FillFailed(|rows|)
    ensures j < |src| ==>
      var vs := src[j].values;
      Expected(src, k, nl, xmin, xmax, rows) ==
        Expected(src, j + 1, nl, xmin, xmax, if InRange(vs[0], xmin, xmax) then rows + [vs] else rows)
  {
    var acc := AcceptedFrom(src, k, xmin, xmax);
    if j < |src| {
      var vs := src[j].values;
      var rest := AcceptedFrom(src, j + 1, xmin, xmax);
      if InRange(vs[0], xmin, xmax) {
        assert acc == [vs] + rest;
        if nl <= |rows| + |acc| {
          assert rows + [vs] + rest[..nl - |rows| - 1] == rows + acc[..nl - |rows|];
        }
      }
    }
  }

  /** Reading the columns of a data line from its second value on counts all its values. */
  lemma {:induction false} CountColumnsInLine(src: Source, k: nat, c: nat, n: nat)
    requires k < |src| && src[k].Numbers? && 0 < c < |src[k].values|
    ensures CountColumns(src, Pos(k, c), n) == (n + |src[k].values| - c, Pos(k + 1, 0))
    decreases |src[k].values| - c
  {
    if c + 1 < |src[k].values| {
      CountColumnsInLine(src, k, c + 1, n + 1);
    }
  }

  /** The row loop of pass 1 over data lines counts exactly the accepted rows. */
  lemma {:induction false} CountRowsData(src: Source, k: nat, xmin: real, xmax: real, n: nat)
    requires k <= |src|
    requires forall i :: k <= i < |src| ==> src[i].Numbers? && |src[i].values| > 0
    ensures CountRows(src, Pos(k, 0), xmin, xmax, n) == n + |AcceptedFrom(src, k, xmin, xmax)|
    decreases |src| - k
  {
    if k < |src| {
      var vs := src[k].values;
      assert ReadNumber(src, Pos(k, 0)) == Got(vs[0], Pos(k, 1));
      CountRowsData(src, k + 1, xmin, xmax, if InRange(vs[0], xmin, xmax) then n + 1 else n);
    }
  }

  /**
   * Pass 1 on `c` leading comment lines followed by data lines, the first
   * of them of `nc` values, infers `nc` columns and as many rows as there
   * are accepted rows; a first line of one value needs the lookahead.
   */
  lemma InferTable(src: Source, c: nat, nc: nat, xmin: real, xmax: real, stale: real, lookahead: bool)
    requires c < |src| && 1 <= nc && (2 <= nc || lookahead)
    requires forall i :: 0 <= i < c ==> src[i].Comment?
    requires forall i :: c <= i < |src| ==> src[i].Numbers? && 0 < |src[i].values|
    requires |src[c].values| == nc
    ensures InferDims(src, xmin, xmax, stale, lookahead) == Dims(|AcceptedFrom(src, 0, xmin, xmax)|, nc)
  {
    SkipToData(src, 0, xmin, xmax);
    var p0 := SkipComments(src, Pos(0, 0));
    var vs := src[c].values;
    assert ReadNumber(src, p0) == Got(vs[0], Pos(c, 1));
    if 2 <= nc {
      CountColumnsInLine(src, c, 1, 1);
    }
    var nl0 := if InRange(vs[0], xmin, xmax) then 1 else 0;
    CountRowsData(src, c + 1, xmin, xmax, nl0);
  }

  /** With a degenerate range every data line from `k` on is accepted. */
  lemma {:induction false} AcceptedAllData(src: Source, k: nat, x: real)
    requires k <= |src|
    requires forall i :: k <= i < |src| ==> src[i].Numbers? && 0 < |src[i].values|
    ensures |AcceptedFrom(src, k, x, x)| == |src| - k
    decreases |src| - k
  {
    if k < |src| {
      AcceptedAllData(src, k + 1, x);
    }
  }

  /**
   * With a degenerate range, pass 1 on leading comments and then data
   * lines, the first of `w` values, infers `w` columns and one row per
   * data line.
   */
  lemma InferAllRows(src: Source, c: nat, w: nat, x: real, stale: real, lookahead: bool)
    requires c < |src| && 1 <= w && (2 <= w || lookahead)
    requires forall i :: 0 <= i < c ==> src[i].Comment?
    requires forall i :: c <= i < |src| ==> src[i].Numbers? && 0 < |src[i].values|
    requires |src[c].values| == w
    ensures InferDims(src, x, x, stale, lookahead) == Dims(|src| - c, w)
  {
    InferTable(src, c, w, x, x, stale, lookahead);
    SkipToData(src, 0, x, x);
    assert SkipComments(src, Pos(0, 0)).line == c;
    AcceptedAllData(src, c, x);
  }

  // ---------------------------------------------------------------------
  // The fill as written, on tables where it agrees with the corrected one
  // ---------------------------------------------------------------------

  /**
   * On every data line whose first value is out of range, the other
   * values are out of range too.
   */
  ghost predicate RejectsWholeLines(src: Source, xmin: real, xmax: real)
  {
    forall k, i ::
      0 <= k < |src| && src[k].Numbers? && 0 < i < |src[k].values| && !InRange(src[k].values[0], xmin, xmax)
      ==> !InRange(src[k].values[i], xmin, xmax)
  }

  /**
   * As written, after a rejected first value the fill takes the values
   * left on the line one at a time as candidate first values; when all of
   * them are out of range it arrives at the start of the next line with
   * nothing counted.
   */
  lemma {:induction false} RejectedRest(src: Source, k: nat, c: nat, nl: nat, nc: nat, xmin: real, xmax: real,
                                        rows: seq<seq<real>>)
    requires 1 <= nc && |rows| <= nl
    requires k < |src| && src[k].Numbers? && 0 < c <= |src[k].values|
    requires forall i :: c <= i < |src[k].values| ==> !InRange(src[k].values[i], xmin, xmax)
    ensures Fill(src, Pos(k, c), nl, nc, xmin, xmax, false, rows) == Fill(src, Pos(k + 1, 0), nl, nc, xmin, xmax, false, rows)
    decreases |src[k].values| - c
  {
    var vs := src[k].values;
    if |rows| < nl {
      if c == |vs| {
        assert ReadRow(src, Pos(k, c), nc, xmin, xmax, false) == ReadRow(src, Pos(k + 1, 0), nc, xmin, xmax, false);
      } else {
        assert ReadNumber(src, Pos(k, c)) == Got(vs[c], Pos(k, c + 1));
        assert ReadRow(src, Pos(k, c), nc, xmin, xmax, false) == Reject(Pos(k, c + 1));
        RejectedRest(src, k, c + 1, nl, nc, xmin, xmax, rows);
      }
    }
  }

  /**
   * On a table of rows of `nc` values where no rejected line holds a value
   * in range, the fill as written gives what the corrected fill gives (and
   * so, by FillTable, the accepted rows in file order).
   */
  lemma {:induction false} FillAsWritten(src: Source, k: nat, nl: nat, nc: nat, xmin: real, xmax: real,
                                         rows: seq<seq<real>>)
    requires 1 <= nc && |rows| <= nl && k <= |src|
    requires Table(src, nc) && RejectsWholeLines(src, xmin, xmax)
    ensures Fill(src, Pos(k, 0), nl, nc, xmin, xmax, false, rows) == Fill(src, Pos(k, 0), nl, nc, xmin, xmax, true, rows)
    decreases |src| - k
  {
    if |rows| < nl {
      SkipToData(src, k, xmin, xmax);
      var s := SkipComments(src, Pos(k, 0));
      if s.line < |src| {
        var vs := src[s.line].values;
        RowData(src, k, nc, xmin, xmax, false);
        RowData(src, k, nc, xmin, xmax, true);
        if InRange(vs[0], xmin, xmax) {
          FillAsWritten(src, s.line + 1, nl, nc, xmin, xmax, rows + [vs]);
        } else {
          RejectedRest(src, s.line, 1, nl, nc, xmin, xmax, rows);
          FillAsWritten(src, s.line + 1, nl, nc, xmin, xmax, rows);
        }
      } else {
        RowAtEnd(src, k, nc, xmin, xmax, false);
        RowAtEnd(src, k, nc, xmin, xmax, true);
      }
    }
  }

  // ---------------------------------------------------------------------
  // Rows of the wrong length
  // ---------------------------------------------------------------------

  /**
   * Line `k` is a data line of the wrong length that the fill cannot
   * mend: longer than `nc` values, or shorter and followed by no data line
   * or by one with more values than are missing.
   */
  ghost predicate Malformed(src: Source, k: nat, nc: nat)
  {
    && k < |src| && src[k].Numbers? && 1 <= |src[k].values|
    && (|src[k].values| > nc ||
        (|src[k].values| < nc && (Width(src, k + 1) == 0 || nc - |src[k].values| < Width(src, k + 1))))
  }

  /**
   * From line `j`, with lines j..k-1 of `nc` values, line `k` malformed
   * and a degenerate range, the fill takes lines j..k-1 and stops at line
   * `k` with the row counter moved past it.
   */
  lemma {:induction false} FillMalformedFrom(src: Source, j: nat, k: nat, nl: nat, nc: nat, x: real,
                                             skipRest: bool, rows: seq<seq<real>>)
    requires 1 <= nc && j <= k && |rows| + (k - j) < nl && Malformed(src, k, nc)
    requires forall i :: j <= i < k ==> src[i].Numbers? && |src[i].values| == nc
    ensures Fill(src, Pos(j, 0), nl, nc, x, x, skipRest, rows) == FillFailed(|rows| + (k - j) + 1)
    decreases k - j
  {
    if j < k {
      RowData(src, j, nc, x, x, skipRest);
      FillMalformedFrom(src, j + 1, k, nl, nc, x, skipRest, rows + [src[j].values]);
    } else if |src[k].values| > nc {
      LongRow(src, k, nc, x, x, skipRest);
    } else {
      ShortRow(src, k, nc, x, x, skipRest);
    }
  }

  /**
   * Pass 2 over `c` comment lines, then lines of `nc` values up to line
   * `k`, which is malformed, with a degenerate range: the fill fails with
   * the row counter at the number of rows read, line `k` included.
   */
  lemma FillMalformed(src: Source, c: nat, k: nat, nl: nat, nc: nat, x: real, skipRest: bool)
    requires 1 <= nc && c <= k && k - c < nl && Malformed(src, k, nc)
    requires forall i :: 0 <= i < c ==> src[i].Comment?
    requires forall i :: c <= i < k ==> src[i].Numbers? && |src[i].values| == nc
    ensures Fill(src, Pos(0, 0), nl, nc, x, x, skipRest, []) == FillFailed(k - c + 1)
  {
    SkipToData(src, 0, x, x);
    assert src[c].Numbers?;
    assert SkipComments(src, Pos(0, 0)) == Pos(c, 0);
    ReadRowAfterComments(src, Pos(0, 0), nc, x, x, skipRest);
    ReadRowAfterComments(src, Pos(c, 0), nc, x, x, skipRest);
    assert Fill(src, Pos(0, 0), nl, nc, x, x, skipRest, []) == Fill(src, Pos(c, 0), nl, nc, x, x, skipRest, []);
    FillMalformedFrom(src, c, k, nl, nc, x, skipRest, []);
  }

  // ---------------------------------------------------------------------
  // The out-of-range row as the source reads it
  // ---------------------------------------------------------------------

  /** The two-column table with range [2, 4] used below; its first row is out of range. */
  function Sample(): Source
  {
    [Numbers([1.0, 3.0]), Numbers([2.0, 20.0]), Numbers([3.0, 30.0])]
  }

  /** Pass 1 on the sample infers 2 rows of 2 columns. */
  lemma SampleDims()
    ensures InferDims(Sample(), 2.0, 4.0, 0.0, false) == Dims(2, 2)
    ensures InferDims(Sample(), 2.0, 4.0, 0.0, true) == Dims(2, 2)
  {
    var src := Sample();
    assert ReadNumber(src, Pos(0, 0)) == Got(1.0, Pos(0, 1));
    assert ReadNumber(src, Pos(0, 1)) == Got(3.0, Pos(0, 2));
    assert CountColumns(src, Pos(0, 1), 1) == (2, Pos(1, 0));
    assert ReadNumber(src, Pos(1, 0)) == Got(2.0, Pos(1, 1));
    assert ReadNumber(src, Pos(2, 0)) == Got(3.0, Pos(2, 1));
    assert ReadNumber(src, Pos(3, 0)) == AtEnd;
    assert CountRows(src, Pos(1, 0), 2.0, 4.0, 0) == 2;
  }

  /**
   * Read as the source is written, pass 2 takes the in-range second value
   * (3) of the rejected first line as the first value of a row, reads the 2
   * of the next line as its second value, then finds "20" where a newline
   * should be: the fill fails after counting one row.
   */
  lemma SampleAsWritten()
    ensures Fill(Sample(), Pos(0, 0), 2, 2, 2.0, 4.0, false, []) == FillFailed(1)
  {
    var src := Sample();
    assert ReadNumber(src, Pos(0, 0)) == Got(1.0, Pos(0, 1));
    assert ReadNumber(src, Pos(0, 1)) == Got(3.0, Pos(0, 2));
    assert ReadNumber(src, Pos(0, 2)) == Got(2.0, Pos(1, 1));
    assert [3.0] + [2.0] == [3.0, 2.0];
    assert ReadValues(src, Pos(1, 1), 0, [3.0, 2.0]) == Some(([3.0, 2.0], Pos(1, 1)));
    assert ReadValues(src, Pos(0, 2), 1, [3.0]) == Some(([3.0, 2.0], Pos(1, 1)));
    assert !NewlineNext(src, Pos(1, 1));
    assert ReadRow(src, Pos(0, 0), 2, 2.0, 4.0, false) == Reject(Pos(0, 1));
    assert ReadRow(src, Pos(0, 1), 2, 2.0, 4.0, false) == Broken(true);
  }

  /** With the rest of a rejected line skipped, the two rows in range are loaded. */
  lemma SampleCorrected()
    ensures Fill(Sample(), Pos(0, 0), 2, 2, 2.0, 4.0, true, []) == Filled([[2.0, 20.0], [3.0, 30.0]])
  {
    var src := Sample();
    assert ReadNumber(src, Pos(0, 0)) == Got(1.0, Pos(0, 1));
    assert ReadRow(src, Pos(0, 0), 2, 2.0, 4.0, true) == Reject(Pos(1, 0));
    assert ReadNumber(src, Pos(1, 0)) == Got(2.0, Pos(1, 1));
    assert ReadNumber(src, Pos(1, 1)) == Got(20.0, Pos(1, 2));
    assert [2.0] + [20.0] == [2.0, 20.0];
    assert ReadValues(src, Pos(1, 1), 1, [2.0]) == Some(([2.0, 20.0], Pos(1, 2)));
    assert ReadRow(src, Pos(1, 0), 2, 2.0, 4.0, true) == Accept([2.0, 20.0], Pos(2, 0));
    assert ReadNumber(src, Pos(2, 0)) == Got(3.0, Pos(2, 1));
    assert ReadNumber(src, Pos(2, 1)) == Got(30.0, Pos(2, 2));
    assert [3.0] + [30.0] == [3.0, 30.0];
    assert ReadValues(src, Pos(2, 1), 1, [3.0]) == Some(([3.0, 30.0], Pos(2, 2)));
    assert ReadRow(src, Pos(2, 0), 2, 2.0, 4.0, true) == Accept([3.0, 30.0], Pos(3, 0));
  }

  // ---------------------------------------------------------------------
  // A one-column table as the source reads it
  // ---------------------------------------------------------------------

  /** Three lines of one value each; the range is degenerate, so every value is accepted. */
  function OneColumn(): Source
  {
    [Numbers([1.0]), Numbers([2.0]), Numbers([3.0])]
  }

  /**
   * Read as the source is written, pass 1 takes the 2 of the second line
   * as a second column and infers 2 rows of 2 columns; pass 2 then reads
   * [1, 2] as a row and fails on the third line, which has no second value.
   */
  lemma OneColumnAsWritten()
    ensures InferDims(OneColumn(), 0.0, 0.0, 0.0, false) == Dims(2, 2)
    ensures Fill(OneColumn(), Pos(0, 0), 2, 2, 0.0, 0.0, false, []) == FillFailed(2)
  {
    var src := OneColumn();
    assert ReadNumber(src, Pos(0, 0)) == Got(1.0, Pos(0, 1));
    assert ReadNumber(src, Pos(0, 1)) == Got(2.0, Pos(1, 1));
    assert CountColumns(src, Pos(0, 1), 1) == (2, Pos(2, 0));
    assert ReadNumber(src, Pos(2, 0)) == Got(3.0, Pos(2, 1));
    assert ReadNumber(src, Pos(3, 0)) == AtEnd;
    assert CountRows(src, Pos(2, 0), 0.0, 0.0, 1) == 2;
    assert [1.0] + [2.0] == [1.0, 2.0];
    assert ReadValues(src, Pos(0, 1), 1, [1.0]) == Some(([1.0, 2.0], Pos(1, 1)));
    assert ReadRow(src, Pos(0, 0), 2, 0.0, 0.0, false) == Accept([1.0, 2.0], Pos(2, 0));
    assert ReadNumber(src, Pos(2, 1)) == AtEnd;
    assert ReadRow(src, Pos(2, 0), 2, 0.0, 0.0, false) == Broken(true);
  }

  /** With the lookahead, the same file is inferred as 3 rows of 1 column. */
  lemma OneColumnCorrected()
    ensures InferDims(OneColumn(), 0.0, 0.0, 0.0, true) == Dims(3, 1)
  {
    var src := OneColumn();
    assert ReadNumber(src, Pos(0, 0)) == Got(1.0, Pos(0, 1));
    assert NewlineNext(src, Pos(0, 1));
    assert ReadNumber(src, Pos(1, 0)) == Got(2.0, Pos(1, 1));
    assert ReadNumber(src, Pos(2, 0)) == Got(3.0, Pos(2, 1));
    assert ReadNumber(src, Pos(3, 0)) == AtEnd;
    assert CountRows(src, Pos(3, 0), 0.0, 0.0, 3) == 3;
    assert CountRows(src, Pos(1, 0), 0.0, 0.0, 1) == 3;
  }

  /** With those dimensions, pass 2 loads the one-column file whole. */
  lemma OneColumnLoads()
    ensures Fill(OneColumn(), Pos(0, 0), 3, 1, 0.0, 0.0, false, []) == Filled([[1.0], [2.0], [3.0]])
  {
    var src := OneColumn();
    assert ReadNumber(src, Pos(0, 0)) == Got(1.0, Pos(0, 1));
    assert ReadRow(src, Pos(0, 0), 1, 0.0, 0.0, false) == Accept([1.0], Pos(1, 0));
    assert ReadNumber(src, Pos(1, 0)) == Got(2.0, Pos(1, 1));
    assert ReadRow(src, Pos(1, 0), 1, 0.0, 0.0, false) == Accept([2.0], Pos(2, 0));
    assert ReadNumber(src, Pos(2, 0)) == Got(3.0, Pos(2, 1));
    assert ReadRow(src, Pos(2, 0), 1, 0.0, 0.0, false) == Accept([3.0], Pos(3, 0));
    assert [] + [[1.0]] == [[1.0]];
    assert [[1.0]] + [[2.0]] == [[1.0], [2.0]];
    assert [[1.0], [2.0]] + [[3.0]] == [[1.0], [2.0], [3.0]];
    assert Fill(src, Pos(1, 0), 3, 1, 0.0, 0.0, false, [[1.0]]) == Fill(src, Pos(2, 0), 3, 1, 0.0, 0.0, false, [[1.0], [2.0]]);
  }

  /** Two lines of one value each. */
  function TwoLines(): Source
  {
    [Numbers([1.0]), Numbers([2.0])]
  }

  /**
   * As written, pass 1 takes the 2 of the second line as a second column
   * and infers 1 row of 2 columns; with the lookahead, 2 rows of 1 column.
   */
  lemma TwoLinesDims()
    ensures InferDims(TwoLines(), 0.0, 0.0, 0.0, false) == Dims(1, 2)
    ensures InferDims(TwoLines(), 0.0, 0.0, 0.0, true) == Dims(2, 1)
  {
    var src := TwoLines();
    assert ReadNumber(src, Pos(0, 0)) == Got(1.0, Pos(0, 1));
    assert ReadNumber(src, Pos(0, 1)) == Got(2.0, Pos(1, 1));
    assert CountColumns(src, Pos(0, 1), 1) == (2, Pos(2, 0));
    assert ReadNumber(src, Pos(2, 0)) == AtEnd;
    assert ReadNumber(src, Pos(1, 0)) == Got(2.0, Pos(1, 1));
    assert CountRows(src, Pos(1, 0), 0.0, 0.0, 1) == 2;
  }

  /** As written, pass 2 then reads both lines as the one row [1, 2] and finds the end of the file after it. */
  lemma TwoLinesFill()
    ensures Fill(TwoLines(), Pos(0, 0), 1, 2, 0.0, 0.0, false, []) == Filled([[1.0, 2.0]])
  {
    var src := TwoLines();
    assert ReadNumber(src, Pos(0, 0)) == Got(1.0, Pos(0, 1));
    assert ReadNumber(src, Pos(0, 1)) == Got(2.0, Pos(1, 1));
    assert [1.0] + [2.0] == [1.0, 2.0];
    assert ReadValues(src, Pos(1, 1), 0, [1.0, 2.0]) == Some(([1.0, 2.0], Pos(1, 1)));
    assert ReadValues(src, Pos(0, 1), 1, [1.0]) == Some(([1.0, 2.0], Pos(1, 1)));
    assert ReadRow(src, Pos(0, 0), 2, 0.0, 0.0, false) == Accept([1.0, 2.0], Pos(2, 0));
  }

  /** A data line, a comment line, and a second data line. */
  function MidComment(): Source
  {
    [Numbers([1.0, 10.0]), Comment, Numbers([2.0, 20.0])]
  }

  /** Pass 1 counts the first line only: the row loop stops at the comment. */
  lemma MidCommentDims(lookahead: bool)
    ensures InferDims(MidComment(), 0.0, 0.0, 0.0, lookahead) == Dims(1, 2)
  {
    var src := MidComment();
    assert ReadNumber(src, Pos(0, 0)) == Got(1.0, Pos(0, 1));
    assert ReadNumber(src, Pos(0, 1)) == Got(10.0, Pos(0, 2));
    assert CountColumns(src, Pos(0, 1), 1) == (2, Pos(1, 0));
    assert ReadNumber(src, Pos(1, 0)) == NoMatch;
    assert CountRows(src, Pos(1, 0), 0.0, 0.0, 1) == 1;
  }

  /** Pass 2 with one row to fill reads the first line and stops. */
  lemma MidCommentFill(skipRest: bool)
    ensures Fill(MidComment(), Pos(0, 0), 1, 2, 0.0, 0.0, skipRest, []) == Filled([[1.0, 10.0]])
  {
    var src := MidComment();
    assert ReadNumber(src, Pos(0, 0)) == Got(1.0, Pos(0, 1));
    assert ReadNumber(src, Pos(0, 1)) == Got(10.0, Pos(0, 2));
    assert [1.0] + [10.0] == [1.0, 10.0];
    assert ReadValues(src, Pos(0, 2), 0, [1.0, 10.0]) == Some(([1.0, 10.0], Pos(0, 2)));
    assert ReadValues(src, Pos(0, 1), 1, [1.0]) == Some(([1.0, 10.0], Pos(0, 2)));
    assert ReadRow(src, Pos(0, 0), 2, 0.0, 0.0, skipRest) == Accept([1.0, 10.0], Pos(1, 0));
  }
}
