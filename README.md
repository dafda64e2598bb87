# The QDOAS matrix object, modelled in Dafny

This project models the matrix object of the QDOAS engine (`Src/engine/matrix.c`).
A `MATRIX_OBJECT` holds a table of `nl` lines by `nc` columns, stored column by
column and addressed from the base indexes `basel` and `basec`. It can also hold
a buffer with the second derivatives of columns 1..nc-1 against column 0, which
later spline interpolation uses. Four routines act on it:

- `MATRIX_Allocate` resets the object and allocates both buffers.
- `MATRIX_Free` releases them and zeroes the object.
- `MATRIX_Copy` makes a deep copy.
- `MATRIX_Load` reads a table from a text file in two passes. Pass 1 infers the
  dimensions when the caller leaves one at 0. Pass 2 fills the rows whose first
  value lies in the range `[min(xmin, xmax), max(xmin, xmax)]`, where a degenerate
  range accepts everything. Inside the fill loop, each accepted row must yield
  `nc` values and be followed by a newline. After the fill, `MATRIX_Load` reports
  ERROR_ID_WAVELENGTH when no row was counted, optionally flips the row order,
  optionally asks the spline routine for second derivatives, and frees everything
  on any error.

The files:

- `errors.dfy` (module `ErrorCodes`): the `ERROR_ID_*` return codes and an `Option`.
- `text_table.dfy` (module `TextTable`): the text file as a sequence of lines, each a
  comment line or a line of numbers, and a cursor over it. `ReadNumber` is one
  `%lf` conversion: it skips white space, newlines included, so it crosses a line
  end. `SkipComments` is the `COMMENT_LINE` loop. `InRange` is the range test.
- `table_scan.dfy` (module `TableScan`): pass 1 (`CountColumns`, `CountRows`,
  `InferDims`) and pass 2 (`ReadRow`, `Fill`) as functions of the file. It also has
  a reference definition of what a well-formed table holds (`AcceptedFrom`) and the
  lemmas connecting the two.
- `load_spec.dfy` (module `LoadSpec`): the whole load as functions. `Plan` covers
  opening the file and pass 1. `Materialise` covers pass 2, the flip and the
  derivatives. The module also has the flip (`Reversed`) and its laws, the
  derivative loop (`Deriv2From`), and end-to-end lemmas.
- Two flags of these functions select the two corrections of "## Findings":
  `lookahead` for pass 1 and `skipRest` for pass 2. Set to `false`, they give
  the code as written, and that is what the methods below are proved to compute.
  The end-to-end lemmas state for which flags, and on which files, they hold.
- `scan.dfy` (module `Scan`): the pass-1 loops as methods, each proved to compute
  its function.
- `matrix.dfy` (module `Matrix`): `class MatrixObject` with the fields of
  `MATRIX_OBJECT` and the four routines as methods.
  - Each method that changes state states the object's whole new state on
    success. On failure, the fill, flip and derivative steps leave the buffer
    contents unstated; `Load` then frees the buffers.
  - `Load` is proved to leave either the state that `Plan` and `Materialise`
    describe with both flags `false`, or an empty object after an allocation
    failure.
  - Every error leaves the object empty.

The arrays are indexed from 0:

- `matrix[j, i]` is the source's `matrix[basec + j][basel + i]`.
- `deriv2[j - 1, i]` is the source's `deriv2[basec + j][basel + i]`, for 1 <= j < nc.

Points where the code's behaviour is easy to miss. The model follows the code:

- A failed allocation of the derivative buffer leaves the matrix buffer held, with
  every index still 0 (`Stranded`). `MATRIX_Load` frees it afterwards;
  `MATRIX_Copy` does not.
- `MATRIX_Copy` from a source without a matrix reports the error through
  `ERROR_SetLast` but returns `ERROR_ID_NO`, with the target empty.
- The row loop of pass 1 stops at the first line that does not open with a
  number, so a comment line in the middle of the file ends the row count.
  Pass 2 skips such lines. With the dimensions inferred, the load therefore
  succeeds and silently drops every row after such a comment
  (`LoadSpec.MidCommentAsWritten`).
- After pass 2, a row counter of 0 turns any failure into `ERROR_ID_WAVELENGTH`,
  including a failed first read.
- When the very first conversion of pass 1 meets the end of the file, `fscanf`
  returns `EOF`, which is non-zero. The range test is then made on the
  uninitialised `tempValue`, which the model takes as the parameter `stale`.
- `ReadNumber` crosses line ends, as `%lf` does. When a row is too short, pass 2
  therefore continues onto the next line. The newline check then usually fails,
  but it does not when the short row is followed by a line that completes it.

## Model

| member | source | states |
|---|---|---|
| TextTable.ReadNumber | Src/engine/matrix.c:356-362 | A successful `%lf` conversion yields a value of a data line at or after the cursor and leaves the cursor just past it: the next value on the same line, or the first value of the next line; it never moves further than the next line, and never leaves the line when it starts at the head of it. It reports end of file exactly when the cursor is past the last line, or at the end of the last line. |
| TextTable.NewlineNext | Src/engine/matrix.c:318-319 | `fgetc` finds a newline or end of file exactly when no value is left on the line: the next `%lf` then reads from the next line. Otherwise it reads the next value of the same line. |
| TextTable.SkipComments | Src/engine/matrix.c:305-307 | The comment-line loop moves only to line starts further on. It stops at end of file or at a data line that is not at its end. |
| TextTable.InRange | Src/engine/matrix.c:288-289 | Equal bounds accept every value. Otherwise a value passes exactly when it lies between the two bounds, in either order. |
| TableScan.CountColumns | Src/engine/matrix.c:316-324 | The column loop never lowers the count it starts from. |
| TableScan.CountRows | Src/engine/matrix.c:327-331 | The row loop adds at most one row per remaining line. |
| TableScan.InferDims | Src/engine/matrix.c:303-332 | Pass 1 always infers at least one column. |
| TableScan.ReadValues | Src/engine/matrix.c:361-366 | `n` NEXT_DOUBLE conversions append exactly `n` values to the row read so far, or fail. |
| TableScan.ReadRow | Src/engine/matrix.c:350-374 | One fill iteration accepts only rows of `nc` values whose first value is in range. A rejected row moves the cursor strictly forward within the file. |
| TableScan.ReadRowAfterComments | Src/engine/matrix.c:351-353 | Skipping comment lines before a fill iteration does not change what it reads. |
| TableScan.Fill | Src/engine/matrix.c:349-375 | Pass 2 either fills exactly `nl` rows or fails with the row counter between the rows already filled and `nl`. What it fills is stated by FillShape, FillTable, FillAsWritten and FillMalformed. |
| TableScan.FillStep | Src/engine/matrix.c:349-375 | One iteration of pass 2, written out from the cursor after the comment lines: a failed first read, a value out of range, a short row and a missing newline. |
| TableScan.FillShape | Src/engine/matrix.c:349-375 | Pass 2 either fills exactly `nl` rows of `nc` values, extending the rows already filled, or fails with the row counter between the rows filled and `nl`. |
| TableScan.AcceptedRows | Src/engine/matrix.c:359-360 | Every row of the reference definition is a data line of the file whose first value passes the range test. |
| TableScan.SkipToData | Src/engine/matrix.c:351-353 | From a line start, the comment loop passes only comment lines, stops at the next data line, and loses no accepted row. |
| TableScan.ReadValuesInLine | Src/engine/matrix.c:361-366 | Reading `n` values that are still on the cursor's line yields exactly those values and leaves the cursor after them, on the same line. |
| TableScan.RowAtEnd | Src/engine/matrix.c:356-358 | With only comments left, the first read fails and the row counter does not move, as written and corrected. |
| TableScan.RowData | Src/engine/matrix.c:356-373 | A data line of `nc` values is read whole and accepted exactly when its first value is in range. Otherwise, as written, only that first value is consumed and the cursor stays on the line; corrected, the cursor passes to the next line. |
| TableScan.LongRow | Src/engine/matrix.c:359-373 | A data line of more than `nc` values whose first value is in range fails the newline check: the row counter moves and the fill stops. |
| TableScan.ShortRow | Src/engine/matrix.c:359-373 | A data line of fewer than `nc` values whose first value is in range takes the missing values from the next line. When that line holds exactly the missing values the two form one row; when it holds more, or is no data line, the fill stops with the counter moved. |
| TableScan.FillTable | Src/engine/matrix.c:349-375 | Corrected pass 2 (rest of a rejected line skipped), on a file whose data lines all have `nc` values, yields the first `nl` rows in range, in file order, with comment lines anywhere. With fewer such rows it fails, and the row counter equals their number. As written, the same holds when no rejected line holds a value in range (FillAsWritten). |
| TableScan.CountColumnsInLine | Src/engine/matrix.c:316-324 | From the second value of a data line, the column loop counts every value of the line and stops at the next line. |
| TableScan.CountRowsData | Src/engine/matrix.c:327-331 | Over data lines, the row loop counts exactly the rows whose first value is in range. |
| TableScan.RejectedRest | Src/engine/matrix.c:355-360 | As written, after a rejected first value the values left on its line are each tested as a first value; when all are out of range the fill reaches the next line with nothing counted. |
| TableScan.FillAsWritten | Src/engine/matrix.c:349-375 | On a table of rows of `nc` values where no rejected line holds a value in range, pass 2 as written gives exactly what the corrected pass 2 gives. |
| TableScan.FillMalformed | Src/engine/matrix.c:349-375 | With a degenerate range, leading comments, rows of `nc` values and then a row that is too long, or too short and followed by no data line or by one with more values than are missing, pass 2 fails with the row counter at the number of rows read, that row included. This holds as written and corrected. |
| TableScan.InferTable | Src/engine/matrix.c:303-332 | Pass 1 on leading comments followed by data lines, the first of them of `nc` values, infers `nc` columns and as many rows as are in range. As written this holds for two or more columns; a first line of one value needs the lookahead. |
| TableScan.SampleDims | Src/engine/matrix.c:303-332 | On the out-of-range sample, pass 1 infers 2 rows of 2 columns, with or without the lookahead. |
| TableScan.SampleAsWritten | Src/engine/matrix.c:355-374 | As written, pass 2 on the sample takes the second value of the rejected line as a first value, and fails with one row counted. |
| TableScan.SampleCorrected | Src/engine/matrix.c:355-374 | When the rest of a rejected line is skipped, pass 2 on the sample fills exactly the two rows in range. |
| TableScan.OneColumnAsWritten | Src/engine/matrix.c:311-324 | As written, pass 1 infers 2 columns for a one-column file, and pass 2 then fails with two rows counted. |
| TableScan.OneColumnCorrected | Src/engine/matrix.c:311-324 | With the lookahead, the one-column file is inferred as 3 rows of 1 column. |
| TableScan.OneColumnLoads | Src/engine/matrix.c:349-375 | With 3 rows of 1 column, pass 2 as written loads the one-column file whole. |
| LoadSpec.Column | Src/engine/matrix.c:397-398 | Column `j` of the table has one value per row, the row's `j`-th value. |
| LoadSpec.Reversed | Src/engine/matrix.c:384-391 | The flip keeps the number of rows. |
| LoadSpec.ReversedAt | Src/engine/matrix.c:384-391 | After the flip, row `k` is the old row `nl - 1 - k`. |
| LoadSpec.ReversedRect | Src/engine/matrix.c:384-391 | The flip keeps every row's length. |
| LoadSpec.ReversedTwice | Src/engine/matrix.c:384-391 | Flipping twice gives back the original rows. |
| LoadSpec.ReversedPermutes | Src/engine/matrix.c:384-391 | The flip is a permutation of whole rows. |
| LoadSpec.Flipped | Src/engine/matrix.c:384-391 | The flip keeps the number of rows. The rows are reversed (row `k` becomes the old row `nl - 1 - k`) exactly when the flip is asked for, there is more than one row and the first reference value is above the second; otherwise they are unchanged. |
| LoadSpec.Deriv2From | Src/engine/matrix.c:395-401 | On success the derivative loop adds one column per remaining table column. Which columns those are is stated by Deriv2Columns. |
| LoadSpec.Deriv2Columns | Src/engine/matrix.c:395-401 | The derivative loop succeeds exactly when the routine succeeds on every column 1..nc-1. Derivative column `j - 1` is then the routine's answer for column `j` against column 0. |
| LoadSpec.Plan | Src/engine/matrix.c:284-341 | An unreadable file gives exactly ERROR_ID_FILE_NOT_FOUND. Every other refusal is ERROR_ID_FILE_EMPTY. Accepted dimensions are positive and at least the caller's. Dimensions the caller gave in full are kept. Pass 1 is as written with `lookahead` false. |
| LoadSpec.Materialise | Src/engine/matrix.c:342-401 | A load yields `nl` rows of `nc` values, with `nc - 1` derivative columns exactly when they were asked for. Otherwise it fails with ERROR_ID_WAVELENGTH, ERROR_ID_FILE_BAD_LENGTH or the spline failure. Pass 2 is as written with `skipRest` false. |
| LoadSpec.LoadCleanTable | Src/engine/matrix.c:303-391 | Round trip: with a dimension left at 0, a file of leading comments and rows of equal length loads as exactly its rows in range, in file order, flipped when asked and descending. As written this holds for two or more columns when no rejected line holds a value in range; corrected, for every such file. |
| LoadSpec.LoadTooFewRows | Src/engine/matrix.c:340-341 | With a dimension left at 0, fewer rows in range than the caller's minimum, or none, are refused with ERROR_ID_FILE_EMPTY before any allocation, as written (two or more columns) and corrected. |
| LoadSpec.LoadGivenDims | Src/engine/matrix.c:340-391 | With both dimensions given, the first `nl` rows in range are loaded. With none in range the load fails with ERROR_ID_WAVELENGTH; with some but too few, with ERROR_ID_FILE_BAD_LENGTH. As written this holds when no rejected line holds a value in range; corrected, for every table. |
| LoadSpec.LoadMalformedRow | Src/engine/matrix.c:303-379 | With a dimension left at 0 and a degenerate range, a file whose first data lines hold `w` values and whose next line is too long, or too short and followed by no data line or by one with more values than are missing, is inferred as `w` columns and fails with ERROR_ID_FILE_BAD_LENGTH, as written and corrected. |
| LoadSpec.TwoLinesAsWritten | Src/engine/matrix.c:311-324 | As written, the one-column file `1`, `2` loads without error as one row of two columns. With the lookahead it is inferred as 2 rows of 1 column. |
| LoadSpec.MidCommentAsWritten | Src/engine/matrix.c:326-331 | With the dimensions inferred and a degenerate range, the file `1 10`, a comment line, `2 20` loads without error as its first row alone, with or without either correction. |
| Scan.SkipCommentLines | Src/engine/matrix.c:305-307 | The comment-line loop computes `SkipComments`. |
| Scan.ScanDims | Src/engine/matrix.c:303-332 | The three loops of pass 1 (comments, columns, rows) compute `InferDims` as written, without the lookahead. |
| Matrix.MatrixObject.Free | Src/engine/matrix.c:145-172 | Every pointer is null and every index 0. Freeing an empty object changes nothing. |
| Matrix.MatrixObject.Allocate | Src/engine/matrix.c:91-134 | The object is reset first. On success it has fresh buffers of the requested size and records `nl`, `nc`, `basel` and `basec`. The derivative buffer covers columns 1..nc-1 and exists exactly when asked for. On ERROR_ID_ALLOC nothing is recorded, and at most the matrix buffer is held. |
| Matrix.MatrixObject.Copy | Src/engine/matrix.c:189-226 | The target is reset first. A source without a matrix, or the target itself, leaves the target empty with ERROR_ID_NO. Otherwise the target gets the source's dimensions, bases and derivative presence, and a fresh copy of every cell of both buffers. The source is not changed. |
| Matrix.MatrixObject.ColumnOf | Src/engine/matrix.c:397-398 | A column of the matrix buffer, as handed to the spline routine, has `nl` values. |
| Matrix.MatrixObject.FillRows | Src/engine/matrix.c:349-375 | The fill loop computes `Fill` as written. The matrix holds the rows, or the error and the row counter are those of `Fill`. |
| Matrix.MatrixObject.FillRow | Src/engine/matrix.c:350-374 | One iteration of the fill loop preserves what pass 2 as written will produce. It either counts one more row written into the matrix, or passes over one first value out of range and moves the cursor forward. |
| Matrix.MatrixObject.ReadRest | Src/engine/matrix.c:361-366 | The inner loop writes the NEXT_DOUBLE values into line `i` of columns 1..nc-1 and touches no other cell. It fails exactly when `ReadValues` fails. |
| Matrix.MatrixObject.Flip | Src/engine/matrix.c:384-391 | The in-place swap leaves line `i` of every column holding the old line `nl - 1 - i`. |
| Matrix.MatrixObject.FlipIfDescending | Src/engine/matrix.c:384-391 | When the fill succeeded, the matrix afterwards holds the filled rows in the order `Flipped` gives: reversed exactly when the flip is asked for and the first reference value is above the second. |
| Matrix.MatrixObject.ComputeDeriv2 | Src/engine/matrix.c:395-401 | The derivative loop computes `Deriv2From`. It returns the spline failure at the routine's first failure; otherwise the derivative buffer holds every column's derivatives. |
| Matrix.MatrixObject.LoadRows | Src/engine/matrix.c:344-401 | Fill, wavelength check, flip and derivatives leave the object presenting what `Materialise` specifies for pass 2 as written. |
| Matrix.MatrixObject.Load | Src/engine/matrix.c:256-431 | Refusals before allocation return what `Plan` gives for pass 1 as written. An allocated load ends in the state `Materialise` describes for pass 2 as written, or in ERROR_ID_ALLOC. Any error leaves the object empty. |

## Left out

- Character-level `fscanf` behaviour is not modelled. The file is modelled as a list of tokenised lines (comment lines, and lines of numbers separated by blanks), and decimal text to `double` conversion is abstracted to `real` values. Not covered:
  - filler characters after a value (`%*[^0-9.\n-]`);
  - a comma right after the first value of a row;
  - blank lines;
  - carriage returns;
  - a blank after the single value of a one-column row, which the source's newline check rejects.
- Opening, measuring, rewinding and closing the file (`fopen`, `STD_FileLength`, `fseek`, `fclose`) are I/O. The file is a `TextFile` parameter: unreadable, or readable lines with a length in bytes.
- `FILES_RebuildFileName`, the calling-function name built with `sprintf`, `ERROR_SetLast` and the `DEBUG_*` tracing are left out. They only build messages and log.
- `SPLINE_Deriv2` is an external numerical routine. It is a function parameter `Spline` that returns as many derivatives as abscissae, or fails. Its own error code is modelled as the single `SplineFailed`.
- `MEMORY_AllocDMatrix` and `MEMORY_ReleaseDMatrix` work by pointer offsets. The model uses arrays indexed from 0 and keeps the bases as recorded values. Whether an allocation succeeds is a nondeterministic choice.
- Matrix.MatrixObject.Allocate: only positive dimensions are modelled. Every caller in `matrix.c` passes positive ones, and what the allocator does with an empty range is not part of this model. The initial contents of fresh buffers are not stated.
- Matrix.MatrixObject.Free: releasing a stranded matrix buffer that was allocated with non-zero bases uses the recorded bases, which are 0. That pointer arithmetic is outside the model.
- Matrix.MatrixObject.Copy: the source must be in one of the states the four routines leave (`Valid`). An arbitrary C struct is not modelled.
- Matrix.MatrixObject.Load: an allocation failure is reported as ERROR_ID_ALLOC without tying it to an input, because allocation is nondeterministic. The caller's `nl` and `nc` are natural numbers; negative values are not modelled.
- Matrix.MatrixObject.Load: the flip test `matrix[0][0] > matrix[0][1]` is made only when `nl > 1`. With one line the source reads outside the buffer, but its swap loop runs zero times, so the result is the same.
- TableScan.ShortRow: a short row followed by a data line with fewer values than are missing reads on into the lines after it. Where that chain ends is not stated.
- TableScan.FillMalformed: for the same reason, a short row followed by a data line with fewer values than are missing is excluded.
- LoadSpec.LoadMalformedRow: for the same reason, a short row followed by a data line with fewer values than are missing is excluded.
- `Script/qdoas_test.py` and `script/convolve_xs.py` are left out. They are test and conversion drivers built on subprocesses, threads and numeric libraries.

## Findings

| source | as written | input that shows it | evidently intended | confidence | as-written member | corrected member |
|---|---|---|---|---|---|---|
| Src/engine/matrix.c:359-374 | After a first value out of range, pass 2 consumes only that value. The next value on the same line is then tested as the first value of a row. | Rows `1 3`, `2 20`, `3 30`, range [2, 4], dimensions inferred as 2 by 2. The source stores row `3 2`, finds `20` where a newline should be, and returns ERROR_ID_FILE_BAD_LENGTH. | The rest of the rejected line is discarded, as pass 1 does at line 327. The two rows in range are then loaded. | not executed | TableScan.SampleAsWritten | TableScan.FillTable |
| Src/engine/matrix.c:311-324 | With a dimension left at 0, the column loop's first NEXT_DOUBLE conversion skips the newline after a line's only value. It counts the next line's first value as a second column. | A one-column file `1`, `2`, `3`. Pass 1 infers 2 rows of 2 columns, pass 2 reads row `1 2`, and the third line has no second value: ERROR_ID_FILE_BAD_LENGTH. The two-line file `1`, `2` even loads without error as 1 row of 2 columns (LoadSpec.TwoLinesAsWritten). | A newline right after the first value ends the count at one column. The file loads as 3 rows of 1 column. | not executed | TableScan.OneColumnAsWritten | TableScan.OneColumnCorrected |
