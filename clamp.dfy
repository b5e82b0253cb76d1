/** The two clamps of the preview (`clampRows` and `clampCols` in
    assets/js/main.js): keep the header and the first data rows, and keep the
    first fields of every row. Both are built on JavaScript's
    `Array.prototype.slice`, whose bounds may be negative (counted from the
    end) or past the end (clamped). */
module Clamp {
  import opened Text

  function Min(a: int, b: int): int
  {
    if a <= b then a else b
  }

  function Max(a: int, b: int): int
  {
    if a >= b then a else b
  }

  /** A `slice` bound as JavaScript resolves it against a length `len`:
      a negative bound counts back from the end, and the result is clamped
      to `0..len`. */
  function SliceIndex(k: int, len: nat): (j: nat)
    ensures j <= len
    ensures 0 <= k ==> j == Min(k, len)
    ensures k < 0 ==> j == Max(len + k, 0)
  {
    if k < 0 then (if len + k < 0 then 0 else len + k)
    else if k > len then len
    else k
  }

  /** `s.slice(start, end)`: the elements from the resolved start up to the
      resolved end, none when the end is not past the start. */
  function Slice<T>(s: seq<T>, start: int, end: int): (r: seq<T>)
    ensures var b, e := SliceIndex(start, |s|), SliceIndex(end, |s|);
            |r| == Max(e - b, 0) && forall k :: 0 <= k < |r| ==> r[k] == s[b + k]
  {
    var b, e := SliceIndex(start, |s|), SliceIndex(end, |s|);
    if b < e then s[b..e] else []
  }

  /** `clampRows(rows, maxDataRows)`: the empty table as it is, otherwise the
      header followed by `rows.slice(1, 1 + maxDataRows)`. */
  function ClampRows(rows: Table, maxDataRows: int): (r: Table)
    ensures rows == [] ==> r == []
    ensures rows != [] ==> 1 <= |r| <= |rows| && r == rows[..|r|]
    ensures rows != [] && maxDataRows >= 0 ==> |r| == 1 + Min(maxDataRows, |rows| - 1)
    ensures rows != [] && maxDataRows == -1 ==> r == [rows[0]]
    ensures rows != [] && maxDataRows < -1 ==> |r| == Max(|rows| + 1 + maxDataRows, 1)
  {
    if rows == [] then rows
    else
      var data := Slice(rows, 1, 1 + maxDataRows);
      assert data == rows[1..1 + |data|];
      [rows[0]] + data
  }

  /** `clampCols(rows, maxCols)`: the table as it is when it is empty or
      `maxCols` is not positive, otherwise every row cut to
      `row.slice(0, maxCols)`. */
  function ClampCols(rows: Table, maxCols: int): (r: Table)
    ensures |r| == |rows|
    ensures rows == [] || maxCols <= 0 ==> r == rows
    ensures maxCols > 0 ==>
              forall k :: 0 <= k < |rows| ==>
                |r[k]| == Min(maxCols, |rows[k]|) && r[k] == rows[k][..|r[k]|]
  {
    if rows == [] || maxCols <= 0 then rows
    else seq(|rows|, k requires 0 <= k < |rows| => Slice(rows[k], 0, maxCols))
  }

  // ---------------------------------------------------------------------
  // Properties

  /** Clamping the rows twice with the same non-negative count is clamping
      them once. */
  lemma ClampRowsIdempotent(rows: Table, n: int)
    requires n >= 0
    ensures ClampRows(ClampRows(rows, n), n) == ClampRows(rows, n)
  {
  }

  /** Clamping the columns twice with the same count is clamping them once. */
  lemma ClampColsIdempotent(rows: Table, m: int)
    ensures ClampCols(ClampCols(rows, m), m) == ClampCols(rows, m)
  {
    var once := ClampCols(rows, m);
    var twice := ClampCols(once, m);
    if rows != [] && m > 0 {
      forall k | 0 <= k < |rows|
        ensures twice[k] == once[k]
      {
        assert |twice[k]| == |once[k]|;
      }
    }
  }

  /** The two clamps touch different dimensions: their order does not
      matter. */
  lemma ClampsCommute(rows: Table, n: int, m: int)
    ensures ClampCols(ClampRows(rows, n), m) == ClampRows(ClampCols(rows, m), n)
  {
  }
}
