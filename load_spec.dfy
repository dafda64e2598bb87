/**
 * What MATRIX_Load computes, as functions of its inputs: the checks made
 * before any buffer is allocated, the rows it fills, the flip, and the
 * second derivatives it asks for. The imperative model in module Matrix is
 * proved to produce exactly this.
 */
module LoadSpec {
  import opened ErrorCodes
  import opened TextTable
  import opened TableScan

  /**
   * The external SPLINE_Deriv2 routine: from abscissae and ordinates, as
   * many second derivatives as abscissae, or a failure.
   */
  type Spline = f: (seq<real>, seq<real>) -> Option<seq<real>>
    | forall x, y :: f(x, y).Some? ==> |f(x, y).value| == |x|
    witness (x: seq<real>, y: seq<real>) => None

  /** The file named by the caller: it cannot be opened, or it is there with a length in bytes. */
  datatype TextFile = Unreadable | Readable(lines: Source, length: nat)

  /** Every row has `nc` values. */
  predicate Rect(rows: seq<seq<real>>, nc: nat)
  {
    forall i :: 0 <= i < |rows| ==> |rows[i]| == nc
  }

  /** Column `j` of a table given by its rows. */
  function Column(rows: seq<seq<real>>, j: nat): (c: seq<real>)
    requires forall i :: 0 <= i < |rows| ==> j < |rows[i]|
    ensures |c| == |rows| && forall i :: 0 <= i < |rows| ==> c[i] == rows[i][j]
  {
    seq(|rows|, i requires 0 <= i < |rows| => rows[i][j])
  }

  // ---------------------------------------------------------------------
  // The flip
  // ---------------------------------------------------------------------

  function Reversed<T>(s: seq<T>): (r: seq<T>)
    ensures |r| == |s|
  {
    if s == [] then [] else Reversed(s[1..]) + [s[0]]
  }

  lemma {:induction false} ReversedAt<T>(s: seq<T>, k: nat)
    requires k < |s|
    ensures Reversed(s)[k] == s[|s| - 1 - k]
  {
    if k < |s| - 1 {
      ReversedAt(s[1..], k);
    }
  }

  /** The flip keeps every row's length. */
  lemma ReversedRect(rows: seq<seq<real>>, nc: nat)
    requires Rect(rows, nc)
    ensures Rect(Reversed(rows), nc)
  {
    forall i | 0 <= i < |rows| ensures |Reversed(rows)[i]| == nc {
      ReversedAt(rows, i);
    }
  }

  /** Flipping twice gives back the original rows. */
  lemma ReversedTwice<T>(s: seq<T>)
    ensures Reversed(Reversed(s)) == s
  {
    forall k | 0 <= k < |s|
      ensures Reversed(Reversed(s))[k] == s[k]
    {
      ReversedAt(Reversed(s), k);
      ReversedAt(s, |s| - 1 - k);
    }
  }

  /** The flip only reorders whole rows. */
  lemma {:induction false} ReversedPermutes<T>(s: seq<T>)
    ensures multiset(Reversed(s)) == multiset(s)
  {
    if s != [] {
      ReversedPermutes(s[1..]);
      assert s == [s[0]] + s[1..];
    }
  }

  /**
   * The flip of MATRIX_Load: with `reverse` set and the first reference
   * value above the second, the row order is reversed. A one-row table is
   * left alone (the source compares with a second row that does not exist;
   * reversing one row would change nothing anyway).
   */
  function Flipped(rows: seq<seq<real>>, reverse: bool): (r: seq<seq<real>>)
    ensures |r| == |rows|
    ensures !reverse ==> r == rows
    ensures if reverse && 1 < |rows| && 0 < |rows[0]| && 0 < |rows[1]| && rows[0][0] > rows[1][0]
      then forall k :: 0 <= k < |rows| ==> r[k] == rows[|rows| - 1 - k]
      else r == rows
  {
    if reverse && 1 < |rows| && 0 < |rows[0]| && 0 < |rows[1]| && rows[0][0] > rows[1][0] then
      assert forall k :: 0 <= k < |rows| ==> Reversed(rows)[k] == rows[|rows| - 1 - k] by {
        forall k | 0 <= k < |rows| { ReversedAt(rows, k); }
      }
      Reversed(rows)
    else rows
  }

  // ---------------------------------------------------------------------
  // Second derivatives
  // ---------------------------------------------------------------------

  /**
   * The derivative loop from column `j` on, `acc` holding the columns
   * already computed: stops at the first failure of the routine.
   */
  function Deriv2From(rows: seq<seq<real>>, nc: nat, spline: Spline, j: nat, acc: seq<seq<real>>)
    : (r: Option<seq<seq<real>>>)
    requires 1 <= j <= nc && Rect(rows, nc)
    ensures r.Some? ==> |r.value| == |acc| + (nc - j)
    decreases nc - j
  {
    if j == nc then Some(acc)
    else match spline(Column(rows, 0), Column(rows, j))
      case None => None
      case Some(d) => Deriv2From(rows, nc, spline, j + 1, acc + [d])
  }

  /**
   * The derivative loop succeeds exactly when the routine succeeds on
   * every column 1..nc-1, and then derivative column `j - 1` holds the
   * routine's answer for column `j` against column 0, one value per row.
   */
  lemma {:induction false} Deriv2Columns(rows: seq<seq<real>>, nc: nat, spline: Spline, j: nat, acc: seq<seq<real>>)
    requires 1 <= j <= nc && Rect(rows, nc) && |acc| == j - 1
    ensures var r := Deriv2From(rows, nc, spline, j, acc);
      && (r.Some? <==> forall c :: j <= c < nc ==> spline(Column(rows, 0), Column(rows, c)).Some?)
      && (r.Some? ==>
            && |r.value| == nc - 1
            && r.value[..j - 1] == acc
            && forall c :: j <= c < nc ==> r.value[c - 1] == spline(Column(rows, 0), Column(rows, c)).value)
    decreases nc - j
  {
    if j < nc {
      var d := spline(Column(rows, 0), Column(rows, j));
      if d.Some? {
        Deriv2Columns(rows, nc, spline, j + 1, acc + [d.value]);
        var r := Deriv2From(rows, nc, spline, j + 1, acc + [d.value]);
        if r.Some? {
          assert r.value[..j] == acc + [d.value];
          assert r.value[..j - 1] == (acc + [d.value])[..j - 1];
        }
      }
    }
  }

  // ---------------------------------------------------------------------
  // The whole load
  // ---------------------------------------------------------------------

  /** What MATRIX_Load decides before allocating: refuse, or go on with these dimensions. */
  datatype Planned = Proceed(src: Source, dims: Dims) | Refused(rc: ErrorId)

  /**
   * Opening the file, pass 1 when `nl` or `nc` is 0, and the check of the
   * dimensions against the caller's `nl` and `nc` taken as minimums. The
   * source is `lookahead` false; true is pass 1 corrected for a first
   * line of one value (see ## Findings in README.md).
   */
  function Plan(file: TextFile, nl: nat, nc: nat, xmin: real, xmax: real, stale: real, lookahead: bool)
    : (r: Planned)
    ensures r.Proceed? ==> 1 <= r.dims.nl && 1 <= r.dims.nc && nl <= r.dims.nl && nc <= r.dims.nc
    ensures r.Proceed? && nl != 0 && nc != 0 ==> r.dims == Dims(nl, nc)
    ensures r.Refused? ==> r.rc == FileNotFound || r.rc == FileEmpty
    ensures r.Refused? && r.rc == FileNotFound <==> file.Unreadable?
  {
    match file
    case Unreadable => Refused(FileNotFound)
    case Readable(src, length) =>
      if length == 0 then Refused(FileEmpty)
      else
        var d := if nl == 0 || nc == 0 then InferDims(src, xmin, xmax, stale, lookahead) else Dims(nl, nc);
        if d.nl == 0 || d.nc == 0 || d.nl < nl || d.nc < nc then Refused(FileEmpty)
        else Proceed(src, d)
  }

  datatype LoadOutcome = Loaded(rows: seq<seq<real>>, deriv2: Option<seq<seq<real>>>) | LoadFailed(rc: ErrorId)

  /**
   * Pass 2, the flip and the derivatives, once the buffers are allocated
   * with dimensions `d`. The source is `skipRest` false; true is pass 2
   * corrected to discard the rest of a rejected line (see ## Findings in
   * README.md).
   */
  function Materialise(src: Source, d: Dims, xmin: real, xmax: real, skipRest: bool, withDeriv2: bool,
                       reverse: bool, spline: Spline): (r: LoadOutcome)
    requires 1 <= d.nl && 1 <= d.nc
    ensures r.Loaded? ==>
      && |r.rows| == d.nl && Rect(r.rows, d.nc)
      && (r.deriv2.Some? <==> withDeriv2)
      && (r.deriv2.Some? ==> |r.deriv2.value| == d.nc - 1)
    ensures r.LoadFailed? ==> r.rc == Wavelength || r.rc == FileBadLength || r.rc == SplineFailed
  {
    FillShape(src, Pos(0, 0), d.nl, d.nc, xmin, xmax, skipRest, []);
    match Fill(src, Pos(0, 0), d.nl, d.nc, xmin, xmax, skipRest, [])
    case FillFailed(i) => LoadFailed(if i == 0 then Wavelength else FileBadLength)
    case Filled(rows) =>
      var flipped := Flipped(rows, reverse);
      ReversedRect(rows, d.nc);
      if !withDeriv2 then Loaded(flipped, None)
      else
        Deriv2Columns(flipped, d.nc, spline, 1, []);
        match Deriv2From(flipped, d.nc, spline, 1, [])
        case None => LoadFailed(SplineFailed)
        case Some(ds) => Loaded(flipped, Some(ds))
  }

  // ---------------------------------------------------------------------
  // Loading a well-formed table
  // ---------------------------------------------------------------------

  /** `c` comment lines, then data lines of `nc` values each. */
  ghost predicate CleanTable(src: Source, c: nat, nc: nat)
  {
    && c <= |src|
    && (forall i :: 0 <= i < c ==> src[i].Comment?)
    && (forall i :: c <= i < |src| ==> src[i].Numbers? && |src[i].values| == nc)
  }

  /**
   * Round trip: with a dimension left at 0, loading a table of leading
   * comments and rows of `w` values infers `w` columns and the number
   * of rows in range, and yields exactly those rows in file order (flipped
   * when asked and descending). The source as written does so for tables
   * of two or more columns on which no rejected line holds a value in
   * range; the corrected passes do so for every such table.
   */
  lemma LoadCleanTable(src: Source, c: nat, w: nat, length: nat, nl: nat, nc: nat, xmin: real, xmax: real,
                       lookahead: bool, skipRest: bool, reverse: bool, spline: Spline, stale: real)
    requires CleanTable(src, c, w) && c < |src| && 1 <= w && 0 < length
    requires 2 <= w || lookahead
    requires skipRest || RejectsWholeLines(src, xmin, xmax)
    requires nl == 0 || nc == 0
    requires var acc := AcceptedFrom(src, 0, xmin, xmax); 1 <= |acc| && nl <= |acc| && nc <= w
    ensures var acc := AcceptedFrom(src, 0, xmin, xmax);
      && Plan(Readable(src, length), nl, nc, xmin, xmax, stale, lookahead) == Proceed(src, Dims(|acc|, w))
      && Materialise(src, Dims(|acc|, w), xmin, xmax, skipRest, false, reverse, spline)
           == Loaded(Flipped(acc, reverse), None)
  {
    InferTable(src, c, w, xmin, xmax, stale, lookahead);
    AcceptedRows(src, 0, xmin, xmax);
    var acc := AcceptedFrom(src, 0, xmin, xmax);
    assert Table(src, w);
    FillTable(src, 0, |acc|, w, xmin, xmax, []);
    if !skipRest {
      FillAsWritten(src, 0, |acc|, w, xmin, xmax, []);
    }
    assert [] + acc[..|acc|] == acc;
  }

  /**
   * With a dimension left at 0, a table with fewer rows in range than the
   * caller's minimum (or none at all) is refused with ERROR_ID_FILE_EMPTY
   * before anything is allocated.
   */
  lemma LoadTooFewRows(src: Source, c: nat, w: nat, length: nat, nl: nat, nc: nat,
                       xmin: real, xmax: real, stale: real, lookahead: bool)
    requires CleanTable(src, c, w) && c < |src| && 1 <= w && 0 < length
    requires 2 <= w || lookahead
    requires nl == 0 || nc == 0
    requires var n := |AcceptedFrom(src, 0, xmin, xmax)|; n == 0 || n < nl
    ensures Plan(Readable(src, length), nl, nc, xmin, xmax, stale, lookahead) == Refused(FileEmpty)
  {
    InferTable(src, c, w, xmin, xmax, stale, lookahead);
  }

  /**
   * With both dimensions given, comment lines anywhere in a table of rows
   * of `nc` values are ignored: the first `nl` rows in range are loaded;
   * with none in range the load fails with ERROR_ID_WAVELENGTH, and with
   * some but fewer than `nl` with ERROR_ID_FILE_BAD_LENGTH. The source as
   * written does so when no rejected line holds a value in range.
   */
  lemma LoadGivenDims(src: Source, length: nat, nl: nat, nc: nat, xmin: real, xmax: real,
                      lookahead: bool, skipRest: bool, reverse: bool, spline: Spline, stale: real)
    requires 1 <= nl && 1 <= nc && 0 < length && Table(src, nc)
    requires skipRest || RejectsWholeLines(src, xmin, xmax)
    ensures Plan(Readable(src, length), nl, nc, xmin, xmax, stale, lookahead) == Proceed(src, Dims(nl, nc))
    ensures var acc := AcceptedFrom(src, 0, xmin, xmax);
      Materialise(src, Dims(nl, nc), xmin, xmax, skipRest, false, reverse, spline) ==
        if nl <= |acc| then Loaded(Flipped(acc[..nl], reverse), None)
        else if |acc| == 0 then LoadFailed(Wavelength)
        else LoadFailed(FileBadLength)
  {
    FillTable(src, 0, nl, nc, xmin, xmax, []);
    if !skipRest {
      FillAsWritten(src, 0, nl, nc, xmin, xmax, []);
    }
    AcceptedRows(src, 0, xmin, xmax);
    var acc := AcceptedFrom(src, 0, xmin, xmax);
    if nl <= |acc| {
      assert [] + acc[..nl] == acc[..nl];
    }
  }

  /**
   * A row of the wrong length stops the load. With a dimension left at 0
   * and a degenerate range, on `c` comment lines and then data lines, the
   * first `k - c` of them of `w` values and line `k` malformed, pass 1
   * infers `w` columns and one row per data line, and the load fails with
   * ERROR_ID_FILE_BAD_LENGTH, as written and corrected alike.
   */
  lemma LoadMalformedRow(src: Source, c: nat, k: nat, w: nat, length: nat, nl: nat, nc: nat, x: real,
                         lookahead: bool, skipRest: bool, withDeriv2: bool, reverse: bool, spline: Spline,
                         stale: real)
    requires c < k < |src| && 1 <= w && (2 <= w || lookahead) && 0 < length
    requires forall i :: 0 <= i < c ==> src[i].Comment?
    requires forall i :: c <= i < |src| ==> src[i].Numbers? && 0 < |src[i].values|
    requires forall i :: c <= i < k ==> |src[i].values| == w
    requires Malformed(src, k, w)
    requires (nl == 0 || nc == 0) && nl <= |src| - c && nc <= w
    ensures Plan(Readable(src, length), nl, nc, x, x, stale, lookahead) == Proceed(src, Dims(|src| - c, w))
    ensures Materialise(src, Dims(|src| - c, w), x, x, skipRest, withDeriv2, reverse, spline) == LoadFailed(FileBadLength)
  {
    InferAllRows(src, c, w, x, stale, lookahead);
    FillMalformed(src, c, k, |src| - c, w, x, skipRest);
  }

  // ---------------------------------------------------------------------
  // A two-line table of one column as the source reads it
  // ---------------------------------------------------------------------

  /**
   * As written, the file `1`, `2` with dimensions inferred and a degenerate
   * range loads without error as one row of two columns; with the
   * lookahead it is 2 rows of 1 column.
   */
  lemma TwoLinesAsWritten(spline: Spline)
    ensures var src := TwoLines();
      && Plan(Readable(src, 4), 0, 0, 0.0, 0.0, 0.0, false) == Proceed(src, Dims(1, 2))
      && Materialise(src, Dims(1, 2), 0.0, 0.0, false, false, false, spline) == Loaded([[1.0, 2.0]], None)
      && Plan(Readable(src, 4), 0, 0, 0.0, 0.0, 0.0, true) == Proceed(src, Dims(2, 1))
  {
    TwoLinesDims();
    TwoLinesFill();
  }

  // ---------------------------------------------------------------------
  // A comment line in the middle of the file
  // ---------------------------------------------------------------------

  /**
   * With the dimensions inferred and a degenerate range, the file `1 10`,
   * a comment line, `2 20` loads without error as its first row alone:
   * the row loop of pass 1 stops at the comment, so one row is inferred,
   * and pass 2 fills that one row.
   */
  lemma MidCommentAsWritten(spline: Spline, lookahead: bool, skipRest: bool)
    ensures var src := MidComment();
      && Plan(Readable(src, 16), 0, 0, 0.0, 0.0, 0.0, lookahead) == Proceed(src, Dims(1, 2))
      && Materialise(src, Dims(1, 2), 0.0, 0.0, skipRest, false, false, spline) == Loaded([[1.0, 10.0]], None)
  {
    MidCommentDims(lookahead);
    MidCommentFill(skipRest);
  }
}
