/**
 * The MATRIX_OBJECT of the QDOAS engine and the four routines that act on
 * it: MATRIX_Allocate, MATRIX_Free, MATRIX_Copy and MATRIX_Load.
 *
 * The object owns a table of `nl` lines by `nc` columns, stored column by
 * column, and optionally the second derivatives of columns 1..nc-1 against
 * column 0. The source addresses cells from the base indexes `basel` and
 * `basec`; here the arrays are indexed from 0 and the bases are kept in
 * the object as the values the source records:
 *   matrix[j, i] is the source's matrix[basec + j][basel + i],
 *   deriv2[j - 1, i] is the source's deriv2[basec + j][basel + i] (1 <= j < nc).
 */
module Matrix {
  import opened ErrorCodes
  import opened TextTable
  import opened TableScan
  import opened LoadSpec
  import opened Scan

  class MatrixObject {
    var matrix: array2?<real>
    var deriv2: array2?<real>
    var nl: int
    var nc: int
    var basel: int
    var basec: int

    /** All pointers null and all indexes 0, as MATRIX_Free leaves the object. */
    ghost predicate Empty()
      reads this
    {
      matrix == null && deriv2 == null && nl == 0 && nc == 0 && basel == 0 && basec == 0
    }

    /** Buffers of the recorded dimensions, as a successful MATRIX_Allocate leaves the object. */
    ghost predicate Allocated()
      reads this
    {
      && 0 < nl && 0 < nc
      && matrix != null && matrix.Length0 == nc && matrix.Length1 == nl
      && (deriv2 != null ==> deriv2.Length0 == nc - 1 && deriv2.Length1 == nl)
    }

    /**
     * The state a failed allocation of the derivative buffer leaves: the
     * matrix buffer is held, but every index is still 0.
     */
    ghost predicate Stranded()
      reads this
    {
      matrix != null && deriv2 == null && nl == 0 && nc == 0 && basel == 0 && basec == 0
    }

    /** The states the four routines leave an object in. */
    ghost predicate Valid()
      reads this
    {
      Empty() || Allocated() || Stranded()
    }

    /** The matrix holds `rows`, one row per line. */
    ghost predicate Holds(rows: seq<seq<real>>)
      reads this, matrix
      requires Allocated()
    {
      && |rows| == nl && Rect(rows, nc)
      && forall j, i :: 0 <= j < nc && 0 <= i < nl ==> matrix[j, i] == rows[i][j]
    }

    /** The derivative buffer holds `ds`, one sequence per column 1..nc-1. */
    ghost predicate HoldsDeriv2(ds: seq<seq<real>>)
      reads this, deriv2
      requires Allocated() && deriv2 != null
    {
      && |ds| == nc - 1 && Rect(ds, nl)
      && forall j, i :: 0 <= j < nc - 1 && 0 <= i < nl ==> deriv2[j, i] == ds[j][i]
    }

    constructor ()
      ensures Empty()
    {
      matrix := null;
      deriv2 := null;
      nl, nc, basel, basec := 0, 0, 0, 0;
    }

    /** MATRIX_Free: releases both buffers and resets every field. */
    method Free()
      modifies this
      ensures Empty()
      ensures old(Empty()) ==> unchanged(this)
    {
      matrix := null;
      deriv2 := null;
      nl, nc, basel, basec := 0, 0, 0, 0;
    }

    /**
     * MATRIX_Allocate: resets the object, then allocates the matrix and,
     * when asked, the derivative buffer. Either allocation may fail; the
     * indexes are recorded only when both succeed, so a failure of the
     * second leaves the first buffer held with every index at 0.
     */
    method Allocate(nl: int, nc: int, basel: int, basec: int, allocateDeriv2: bool) returns (rc: ErrorId)
      requires 0 < nl && 0 < nc
      modifies this
      ensures Valid()
      ensures rc == NoError || rc == Alloc
      ensures rc == NoError ==>
        && Allocated() && fresh(matrix)
        && this.nl == nl && this.nc == nc && this.basel == basel && this.basec == basec
        && (deriv2 != null <==> allocateDeriv2)
        && (deriv2 != null ==> fresh(deriv2))
      ensures rc == Alloc ==> Empty() || (Stranded() && allocateDeriv2 && fresh(matrix))
    {
      Free();
      rc := NoError;
      var matrixAllocated: bool :| true;
      if !matrixAllocated {
        rc := Alloc;
      } else {
        matrix := new real[nc, nl];
        var deriv2Allocated: bool :| true;
        if allocateDeriv2 && !deriv2Allocated {
          rc := Alloc;
        } else {
          if allocateDeriv2 {
            deriv2 := new real[nc - 1, nl];
          }
          this.nl, this.nc, this.basel, this.basec := nl, nc, basel, basec;
        }
      }
    }

    /**
     * MATRIX_Copy: resets this object, then, when the source holds a
     * matrix, allocates the same dimensions and bases (with a derivative
     * buffer when the source has one) and copies every column of both
     * buffers. A source without a matrix is reported by the source and
     * not returned: the result is ERROR_ID_NO with this object empty. Since
     * the source is read after the reset, copying an object onto itself
     * empties it.
     */
    method Copy(source: MatrixObject) returns (rc: ErrorId)
      requires source.Valid()
      modifies this
      ensures Valid()
      ensures rc == NoError || rc == Alloc
      ensures source == this || !old(source.Allocated()) ==> rc == NoError && Empty()
      ensures source != this ==> unchanged(source)
      ensures source != this && source.matrix != null ==> unchanged(source.matrix)
      ensures source != this && source.deriv2 != null ==> unchanged(source.deriv2)
      ensures source != this && old(source.Allocated()) ==>
        if rc == Alloc then Empty() || Stranded()
        else
          && Allocated() && fresh(matrix)
          && nl == source.nl && nc == source.nc && basel == source.basel && basec == source.basec
          && (forall j, i :: 0 <= j < nc && 0 <= i < nl ==> matrix[j, i] == source.matrix[j, i])
          && (deriv2 != null <==> source.deriv2 != null)
          && (deriv2 != null ==>
                && fresh(deriv2)
                && forall j, i :: 0 <= j < nc - 1 && 0 <= i < nl ==> deriv2[j, i] == source.deriv2[j, i])
    {
      Free();
      rc := NoError;
      if source.nl == 0 || source.nc == 0 || source.matrix == null {
        return;
      }
      rc := Allocate(source.nl, source.nc, source.basel, source.basec, source.deriv2 != null);
      if rc != NoError {
        return;
      }
      var from := source.matrix;
      var j := 0;
      while j < nc
        modifies matrix
        invariant 0 <= j <= nc
        invariant forall c, i :: 0 <= c < j && 0 <= i < nl ==> matrix[c, i] == from[c, i]
      {
        forall i | 0 <= i < nl {
          matrix[j, i] := from[j, i];
        }
        j := j + 1;
      }
      if source.deriv2 != null {
        var fromDeriv2 := source.deriv2;
        j := 1;
        while j < nc
          modifies deriv2
          invariant 1 <= j <= nc
          invariant forall c, i :: 0 <= c < j - 1 && 0 <= i < nl ==> deriv2[c, i] == fromDeriv2[c, i]
        {
          var c := j - 1;
          forall i | 0 <= i < nl {
            deriv2[c, i] := fromDeriv2[c, i];
          }
          j := j + 1;
        }
      }
    }

    // -------------------------------------------------------------------
    // MATRIX_Load
    // -------------------------------------------------------------------

    /** Column `j` of the matrix buffer, as the source hands it to the spline routine. */
    function ColumnOf(j: int): (c: seq<real>)
      reads this, matrix
      requires Allocated() && 0 <= j < nc
      ensures |c| == nl
    {
      var m, n := matrix, nl;
      seq(n, i requires 0 <= i < n reads m => m[j, i])
    }

    /**
     * Pass 2 of MATRIX_Load: skip comment lines, read a first value, and
     * when it is in range read the other `nc - 1` values of the row into
     * line `i` and demand a newline after them. A failed read of a first
     * value or of a later value, and a row not followed by a newline, stop
     * the loop with ERROR_ID_FILE_BAD_LENGTH; the row counter has already
     * moved in the last two cases. After a first value out of range only
     * that value is consumed, so the next value of the same line is taken
     * as the next candidate first value (see ## Findings in README.md).
     */
    method FillRows(src: Source, xmin: real, xmax: real) returns (i: nat, rc: ErrorId)
      requires Allocated()
      modifies matrix
      ensures match Fill(src, Pos(0, 0), nl, nc, xmin, xmax, false, [])
        case Filled(rows) => rc == NoError && i == nl && Holds(rows)
        case FillFailed(k) => rc == FileBadLength && i == k
    {
      ghost var target := Fill(src, Pos(0, 0), nl, nc, xmin, xmax, false, []);
      ghost var done: seq<seq<real>> := [];
      var p := Pos(0, 0);
      i := 0;
      rc := NoError;
      while i < nl && rc == NoError
        invariant i <= nl
        invariant rc == NoError ==>
          && |done| == i && Rect(done, nc)
          && Fill(src, p, nl, nc, xmin, xmax, false, done) == target
          && forall r, j :: 0 <= r < i && 0 <= j < nc ==> matrix[j, r] == done[r][j]
        invariant rc != NoError ==> rc == FileBadLength && target == FillFailed(i)
        decreases nl - i, (if rc == NoError then 1 else 0), |src| - p.line, Width(src, p.line) - p.col
      {
        p, i, rc, done := FillRow(src, p, i, xmin, xmax, done);
      }
    }

    /**
     * One iteration of pass 2, from cursor `p` with `i` rows filled (the
     * rows `done`): either a row is filled and counted, or a first value
     * out of range is passed over, or the loop fails with ERROR_ID_FILE_BAD_LENGTH and the
     * row counter where pass 2 leaves it.
     */
    method FillRow(src: Source, p: Pos, i: nat, xmin: real, xmax: real, ghost done: seq<seq<real>>)
      returns (next: Pos, counted: nat, rc: ErrorId, ghost filled: seq<seq<real>>)
      requires Allocated() && i < nl && |done| == i && Rect(done, nc)
      requires forall r, j :: 0 <= r < i && 0 <= j < nc ==> matrix[j, r] == done[r][j]
      modifies matrix
      ensures counted == i || counted == i + 1
      ensures rc == NoError ==>
        && |filled| == counted && Rect(filled, nc)
        && Fill(src, next, nl, nc, xmin, xmax, false, filled) == Fill(src, p, nl, nc, xmin, xmax, false, done)
        && (counted == i ==> Later(src, p, next))
        && forall r, j :: 0 <= r < counted && 0 <= j < nc ==> matrix[j, r] == filled[r][j]
      ensures rc != NoError ==>
        rc == FileBadLength && Fill(src, p, nl, nc, xmin, xmax, false, done) == FillFailed(counted)
    {
      FillStep(src, p, nl, nc, xmin, xmax, false, done);
      ReadRowAfterComments(src, p, nc, xmin, xmax, false);
      filled := done;
      counted := i;
      rc := NoError;
      next := SkipCommentLines(src, p);
      var first := ReadNumber(src, next);
      if !first.Got? {
        rc := FileBadLength;
      } else if InRange(first.value, xmin, xmax) {
        matrix[0, i] := first.value;
        var q;
        ghost var row;
        q, rc, row := ReadRest(src, first.next, i, first.value);
        counted := i + 1;
        if !NewlineNext(src, q) {
          rc := FileBadLength;
        }
        if rc == NoError {
          filled := done + [row];
          next := NextLine(q);
        }
      } else {
        next := first.next;
      }
    }

    /**
     * The inner loop of pass 2: reads the `nc - 1` values that follow the
     * first value `first` of a row into line `i` of columns 1..nc-1,
     * stopping with ERROR_ID_FILE_BAD_LENGTH at the first failed read.
     */
    method ReadRest(src: Source, start: Pos, i: int, ghost first: real) returns (q: Pos, rc: ErrorId, ghost row: seq<real>)
      requires Allocated() && 0 <= i < nl
      modifies matrix
      ensures rc == NoError || rc == FileBadLength
      ensures rc == NoError <==> ReadValues(src, start, nc - 1, [first]).Some?
      ensures rc == NoError ==>
        && ReadValues(src, start, nc - 1, [first]) == Some((row, q))
        && forall k :: 1 <= k < nc ==> matrix[k, i] == row[k]
      ensures forall k, r :: 0 <= k < nc && 0 <= r < nl && (r != i || k == 0) ==> matrix[k, r] == old(matrix[k, r])
    {
      row := [first];
      q := start;
      rc := NoError;
      var j := 1;
      while j < nc && rc == NoError
        invariant 1 <= j <= nc
        invariant rc == NoError ==>
          && |row| == j
          && ReadValues(src, q, nc - j, row) == ReadValues(src, start, nc - 1, [first])
          && forall k :: 1 <= k < j ==> matrix[k, i] == row[k]
        invariant rc != NoError ==> rc == FileBadLength && ReadValues(src, start, nc - 1, [first]).None?
        invariant forall k, r :: 0 <= k < nc && 0 <= r < nl && (r != i || k == 0 || j <= k) ==> matrix[k, r] == old(matrix[k, r])
      {
        var next := ReadNumber(src, q);
        if next.Got? {
          matrix[j, i] := next.value;
          row := row + [next.value];
          q := next.next;
        } else {
          rc := FileBadLength;
        }
        j := j + 1;
      }
    }

    /**
     * The flip of MATRIX_Load: swaps line `i` with line `nl - 1 - i` in every
     * column, for `i` below `nl / 2`.
     */
    method Flip()
      requires Allocated()
      modifies matrix
      ensures forall j, i :: 0 <= j < nc && 0 <= i < nl ==> matrix[j, i] == old(matrix[j, nl - 1 - i])
    {
      var i := 0;
      while i < nl / 2
        invariant 0 <= i <= nl / 2
        invariant forall c, r :: 0 <= c < nc && 0 <= r < nl ==>
          matrix[c, r] == if r < i || nl - 1 - i < r then old(matrix[c, nl - 1 - r]) else old(matrix[c, r])
      {
        var j := 0;
        while j < nc
          invariant 0 <= j <= nc
          invariant forall c, r :: 0 <= c < nc && 0 <= r < nl ==>
            matrix[c, r] ==
              if r < i || nl - 1 - i < r || ((r == i || r == nl - 1 - i) && c < j)
              then old(matrix[c, nl - 1 - r]) else old(matrix[c, r])
        {
          var tempValue := matrix[j, i];
          matrix[j, i] := matrix[j, nl - 1 - i];
          matrix[j, nl - 1 - i] := tempValue;
          j := j + 1;
        }
        i := i + 1;
      }
    }

    /**
     * The flip step of MATRIX_Load: with `reverseFlag` set and the first
     * reference value above the second, the lines are swapped. When the
     * fill succeeded, the matrix then holds its rows as `Flipped` orders them.
     */
    method FlipIfDescending(reverseFlag: bool, ghost filled: FillResult)
      requires Allocated() && (filled.Filled? ==> Holds(filled.rows))
      modifies matrix
      ensures filled.Filled? ==> Holds(Flipped(filled.rows, reverseFlag))
    {
      if reverseFlag && nl > 1 && matrix[0, 0] > matrix[0, 1] {
        Flip();
        if filled.Filled? {
          var rows := filled.rows;
          ReversedRect(rows, nc);
          forall j, r | 0 <= j < nc && 0 <= r < nl
            ensures matrix[j, r] == Reversed(rows)[r][j]
          {
            ReversedAt(rows, r);
          }
          assert Flipped(rows, reverseFlag) == Reversed(rows);
        }
      }
    }

    /**
     * The derivative loop of MATRIX_Load: for each column `j` from 1, the
     * spline routine on column 0 and column `j` fills derivative column
     * `j`; the loop stops at the first failure.
     */
    method ComputeDeriv2(spline: Spline, ghost rows: seq<seq<real>>) returns (rc: ErrorId)
      requires Allocated() && deriv2 != null && Holds(rows)
      modifies deriv2
      ensures match Deriv2From(rows, nc, spline, 1, [])
        case None => rc == SplineFailed
        case Some(ds) => rc == NoError && HoldsDeriv2(ds)
    {
      ghost var target := Deriv2From(rows, nc, spline, 1, []);
      ghost var acc: seq<seq<real>> := [];
      rc := NoError;
      var j := 1;
      while j < nc && rc == NoError
        invariant 1 <= j <= nc && Holds(rows)
        invariant rc == NoError ==>
          && |acc| == j - 1 && Rect(acc, nl)
          && Deriv2From(rows, nc, spline, j, acc) == target
          && forall c, i :: 0 <= c < j - 1 && 0 <= i < nl ==> deriv2[c, i] == acc[c][i]
        invariant rc != NoError ==> rc == SplineFailed && target.None?
      {
        assert ColumnOf(0) == Column(rows, 0);
        assert ColumnOf(j) == Column(rows, j);
        var d := spline(ColumnOf(0), ColumnOf(j));
        if d.None? {
          rc := SplineFailed;
        } else {
          var c := j - 1;
          forall i | 0 <= i < nl {
            deriv2[c, i] := d.value[i];
          }
          acc := acc + [d.value];
        }
        j := j + 1;
      }
    }

    /** The object presents `outcome`, reported as `rc`. */
    ghost predicate Presents(outcome: LoadOutcome, rc: ErrorId)
      reads this, matrix, deriv2
    {
      match outcome
      case LoadFailed(e) => rc == e
      case Loaded(rows, ds) =>
        && rc == NoError && Allocated() && basel == 0 && basec == 0 && Holds(rows)
        && (deriv2 != null <==> ds.Some?)
        && (ds.Some? ==> HoldsDeriv2(ds.value))
    }

    /**
     * The part of MATRIX_Load that works on the allocated buffers: pass 2,
     * the ERROR_ID_WAVELENGTH check, the flip and the second derivatives.
     */
    method LoadRows(src: Source, xmin: real, xmax: real, allocateDeriv2: bool, reverseFlag: bool, spline: Spline)
      returns (rc: ErrorId)
      requires Allocated() && basel == 0 && basec == 0 && (deriv2 != null <==> allocateDeriv2)
      modifies matrix, deriv2
      ensures Presents(Materialise(src, Dims(nl, nc), xmin, xmax, false, allocateDeriv2, reverseFlag, spline), rc)
    {
      FillShape(src, Pos(0, 0), nl, nc, xmin, xmax, false, []);
      ghost var filled := Fill(src, Pos(0, 0), nl, nc, xmin, xmax, false, []);
      var i;
      i, rc := FillRows(src, xmin, xmax);
      ghost var rows := if filled.Filled? then filled.rows else [];
      if i == 0 {
        rc := Wavelength;
      } else {
        FlipIfDescending(reverseFlag, filled);
        if filled.Filled? {
          rows := Flipped(rows, reverseFlag);
        }
      }
      if allocateDeriv2 && rc == NoError {
        rc := ComputeDeriv2(spline, rows);
      }
    }

    /**
     * MATRIX_Load: reset the object; refuse an unreadable or zero-length
     * file; infer the dimensions when `nl` or `nc` is 0 and check them
     * against the caller's values as minimums; allocate with bases 0; fill;
     * fail with ERROR_ID_WAVELENGTH when no row was counted, otherwise flip
     * when asked; compute the second derivatives when asked; and release
     * everything on any error. An allocation failure is reported as such;
     * every other outcome is the one the specification functions give for
     * both passes as written.
     */
    method Load(file: TextFile, nl: nat, nc: nat, xmin: real, xmax: real,
                allocateDeriv2: bool, reverseFlag: bool, spline: Spline, stale: real) returns (rc: ErrorId)
      modifies this
      ensures Valid()
      ensures rc != NoError ==> Empty()
      ensures match Plan(file, nl, nc, xmin, xmax, stale, false)
        case Refused(e) => rc == e
        case Proceed(src, d) =>
          rc == Alloc || Presents(Materialise(src, d, xmin, xmax, false, allocateDeriv2, reverseFlag, spline), rc)
    {
      var nlMin, ncMin := nl, nc;
      Free();
      rc := NoError;
      match file
      case Unreadable =>
        rc := FileNotFound;
      case Readable(src, length) =>
        if length == 0 {
          rc := FileEmpty;
        } else {
          var lines, columns := nl, nc;
          if lines == 0 || columns == 0 {
            lines, columns := ScanDims(src, xmin, xmax, stale);
          }
          if lines == 0 || columns == 0 || lines < nlMin || columns < ncMin {
            rc := FileEmpty;
          } else {
            rc := Allocate(lines, columns, 0, 0, allocateDeriv2);
            if rc == NoError {
              rc := LoadRows(src, xmin, xmax, allocateDeriv2, reverseFlag, spline);
            }
          }
        }
      if rc != NoError {
        Free();
      }
    }
  }
}
