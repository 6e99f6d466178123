/**
  Reshaping a wide table (one identity column and one column per year) into
  long form: one row per (identity, year) pair, in the column-major order in
  which pandas' `melt` stacks the value columns.
 */
module Reshape {
  import opened Wrappers

  /** A wide table as read from a CSV file: column headers and rows of cells. */
  datatype Table<V> = Table(columns: seq<string>, rows: seq<seq<V>>)
  {
    /** Every row has one cell per column, and headers are distinct
        (the CSV reader renames repeated headers). */
    ghost predicate Valid() {
      (forall i :: 0 <= i < |rows| ==> |rows[i]| == |columns|) &&
      (forall i, j :: 0 <= i < j < |columns| ==> columns[i] != columns[j])
    }
  }

  /** One long-form row: the identity cell, the year, and the cell of that year. */
  datatype LongRow<V> = LongRow(code: V, year: int, value: V)

  /** Why `wide_to_long` raises: the code column is missing (`KeyError`), or
      a year header is too large for `astype(int)`, which converts to int64
      (`OverflowError`). */
  datatype ReshapeError = MissingColumn(name: string) | YearOutOfRange(header: string)

  /** One more than the largest int64. */
  const Int64Bound: nat := 0x8000_0000_0000_0000

  predicate IsDigit(c: char) {
    '0' <= c <= '9'
  }

  predicate AllDigits(s: string) {
    forall i :: 0 <= i < |s| ==> IsDigit(s[i])
  }

  /** `str.isdigit()`: non-empty and made of decimal digits only. */
  predicate IsDigits(s: string) {
    |s| > 0 && AllDigits(s)
  }

  function DigitValue(c: char): (d: nat)
    requires IsDigit(c)
    ensures d < 10
  {
    (c as int) - ('0' as int)
  }

  function DigitChar(d: nat): (c: char)
    requires d < 10
    ensures IsDigit(c) && DigitValue(c) == d
  {
    (('0' as int) + d) as char
  }

  function Pow10(k: nat): (p: nat)
    ensures p >= 1
  {
    if k == 0 then 1 else 10 * Pow10(k - 1)
  }

  /** `int(s)` for a string of decimal digits (leading zeros allowed): a
      number below 10 to the power of the number of digits. */
  function DigitsValue(s: string): (n: nat)
    requires AllDigits(s)
    ensures n < Pow10(|s|)
  {
    if s == [] then 0 else 10 * DigitsValue(s[..|s| - 1]) + DigitValue(s[|s| - 1])
  }

  lemma {:induction false} Pow10Monotone(a: nat, b: nat)
    requires a <= b
    ensures Pow10(a) <= Pow10(b)
  {
    if a < b {
      Pow10Monotone(a, b - 1);
    }
  }

  /** Every header of at most 18 digits, every real year among them, is
      converted by `astype(int)` without overflow. */
  lemma ShortHeaderFits(s: string)
    requires AllDigits(s) && |s| <= 18
    ensures DigitsValue(s) < Int64Bound
  {
    Pow10Monotone(|s|, 18);
    assert Pow10(6) == 1_000_000;
    assert Pow10(12) == 1_000_000_000_000;
    assert Pow10(18) == 1_000_000_000_000_000_000;
  }

  /** Every all-digit header reads as an int64. */
  ghost predicate YearsFit(columns: seq<string>) {
    forall j :: 0 <= j < |columns| && IsDigits(columns[j]) ==> DigitsValue(columns[j]) < Int64Bound
  }

  /** The first all-digit header too large for int64, if any. */
  function FirstOversized(columns: seq<string>): (r: Option<string>)
    ensures r.None? <==> YearsFit(columns)
    ensures r.Some? ==> r.value in columns && IsDigits(r.value) && DigitsValue(r.value) >= Int64Bound
  {
    if columns == [] then None
    else if IsDigits(columns[0]) && DigitsValue(columns[0]) >= Int64Bound then Some(columns[0])
    else
      var r := FirstOversized(columns[1..]);
      assert forall j :: 1 <= j < |columns| ==> columns[j] == columns[1..][j - 1];
      r
  }

  /** `str(n)` for a natural number: the header under which a year is written. */
  function ShowNat(n: nat): (s: string)
    ensures IsDigits(s)
  {
    if n < 10 then [DigitChar(n)] else ShowNat(n / 10) + [DigitChar(n % 10)]
  }

  /** Reading back the header `str(n)` gives `n`. */
  lemma {:induction false} DigitsValueShowNat(n: nat)
    ensures DigitsValue(ShowNat(n)) == n
  {
    var s := ShowNat(n);
    if n >= 10 {
      DigitsValueShowNat(n / 10);
      assert s[..|s| - 1] == ShowNat(n / 10);
    }
  }

  /** Position of the first column called `name`, if any. */
  function IndexOf(columns: seq<string>, name: string): (r: Option<nat>)
    ensures r.None? <==> name !in columns
    ensures r.Some? ==> r.value < |columns| && columns[r.value] == name
  {
    if columns == [] then None
    else if columns[0] == name then Some(0)
    else
      match IndexOf(columns[1..], name)
      case None => None
      case Some(k) => Some(k + 1)
  }

  /** Positions of the year columns, in header order: those whose header is all digits. */
  function YearColumns(columns: seq<string>): (ys: seq<nat>)
    ensures forall k :: 0 <= k < |ys| ==> ys[k] < |columns| && IsDigits(columns[ys[k]])
    ensures forall j :: 0 <= j < |columns| && IsDigits(columns[j]) ==> j in ys
    ensures forall k, l :: 0 <= k < l < |ys| ==> ys[k] < ys[l]
  {
    if columns == [] then []
    else
      var ys := YearColumns(columns[..|columns| - 1]);
      if IsDigits(columns[|columns| - 1]) then ys + [|columns| - 1] else ys
  }

  /** A header written as `str(y)` reads back as `y`. */
  lemma HeaderYear(h: string)
    requires AllDigits(h)
    ensures forall y: nat :: h == ShowNat(y) ==> DigitsValue(h) == y
  {
    forall y: nat | h == ShowNat(y)
      ensures DigitsValue(h) == y
    {
      DigitsValueShowNat(y);
    }
  }

  /** The long-form row for row `i` of the table and the year column at
      position `col`: the row's code, the cell under the column, and as year
      the number the header spells, so `y` for a header written as `str(y)`. */
  function Entry<V>(t: Table<V>, codeIdx: nat, col: nat, i: nat): (r: LongRow<V>)
    requires t.Valid() && codeIdx < |t.columns| && col < |t.columns| && i < |t.rows|
    requires IsDigits(t.columns[col])
    ensures r.code == t.rows[i][codeIdx] && r.value == t.rows[i][col]
    ensures r.year == DigitsValue(t.columns[col]) < Pow10(|t.columns[col]|)
    ensures forall y: nat :: t.columns[col] == ShowNat(y) ==> r.year == y
  {
    HeaderYear(t.columns[col]);
    LongRow(t.rows[i][codeIdx], DigitsValue(t.columns[col]), t.rows[i][col])
  }

  /** The block `melt` emits for one year column: one row per table row, in
      table order. */
  function MeltColumn<V>(t: Table<V>, codeIdx: nat, col: nat): (r: seq<LongRow<V>>)
    requires t.Valid() && codeIdx < |t.columns| && col < |t.columns|
    requires IsDigits(t.columns[col])
    ensures |r| == |t.rows|
    ensures forall i :: 0 <= i < |r| ==> r[i] == Entry(t, codeIdx, col, i)
  {
    seq(|t.rows|, i requires 0 <= i < |t.rows| => Entry(t, codeIdx, col, i))
  }

  ghost predicate YearPositions<V>(t: Table<V>, ys: seq<nat>) {
    forall k :: 0 <= k < |ys| ==> ys[k] < |t.columns| && IsDigits(t.columns[ys[k]])
  }

  /** `melt`: the blocks of the year columns, one after the other, so
      |rows| long-form rows per year column. */
  function Melt<V>(t: Table<V>, codeIdx: nat, ys: seq<nat>): (r: seq<LongRow<V>>)
    requires t.Valid() && codeIdx < |t.columns| && YearPositions(t, ys)
    ensures |r| == |t.rows| * |ys|
  {
    if ys == [] then []
    else
      MulStep(|t.rows|, |ys|);
      Melt(t, codeIdx, ys[..|ys| - 1]) + MeltColumn(t, codeIdx, ys[|ys| - 1])
  }

  /** `wide_to_long`: keep the code column and the year columns, melt, then
      convert the year headers to int64. It fails when the code column is
      missing, or when a year header is too large and the melted table has a
      row carrying it (none does when the table has no rows). */
  function WideToLong<V>(t: Table<V>, codeCol: string): (r: Result<seq<LongRow<V>>, ReshapeError>)
    requires t.Valid()
    ensures r.Failure? <==> codeCol !in t.columns || (|t.rows| > 0 && !YearsFit(t.columns))
    ensures codeCol !in t.columns ==> r == Failure(MissingColumn(codeCol))
    ensures r.Failure? && codeCol in t.columns ==>
      r.error.YearOutOfRange? && r.error.header in t.columns &&
      IsDigits(r.error.header) && DigitsValue(r.error.header) >= Int64Bound
  {
    match IndexOf(t.columns, codeCol)
    case None => Failure(MissingColumn(codeCol))
    case Some(c) =>
      var out := Melt(t, c, YearColumns(t.columns));
      var oversized := FirstOversized(t.columns);
      if |t.rows| > 0 && oversized.Some? then Failure(YearOutOfRange(oversized.value)) else Success(out)
  }

  /** Where `melt` puts table row `i` of the `j`-th year column, with `n` table rows. */
  function Pos(j: nat, i: nat, n: nat): nat {
    j * n + i
  }

  lemma MulStep(n: nat, m: nat)
    requires m > 0
    ensures n * (m - 1) + n == n * m
  {
  }

  lemma PosFacts(j: nat, i: nat, n: nat, m: nat)
    requires j < m && i < n
    ensures Pos(j, i, n) < n * m
    ensures j < m - 1 ==> Pos(j, i, n) < n * (m - 1)
    ensures j == m - 1 ==> Pos(j, i, n) == n * (m - 1) + i
  {
    MulStep(n, j + 1);
    MulLe(j + 1, m, n);
    if j < m - 1 {
      MulLe(j + 1, m - 1, n);
    }
  }

  lemma MulLe(a: nat, b: nat, n: nat)
    requires a <= b
    ensures n * a <= n * b
  {
    var d: nat := b - a;
    assert n * b == n * a + n * d;
  }

  /** Every position below n * m is the position of exactly the pair
      (k / n, k % n). */
  lemma PosCovers(k: nat, n: nat, m: nat)
    requires k < n * m
    ensures n > 0 && k / n < m && k % n < n && Pos(k / n, k % n, n) == k
  {
    assert n > 0;
    var j, i := k / n, k % n;
    assert k == j * n + i;
    if m <= j {
      MulLe(m, j, n);
      assert false;
    }
  }

  /** Position `j * |rows| + i` of Melt holds row `i` under year column `ys[j]`. */
  lemma {:induction false} MeltAt<V>(t: Table<V>, codeIdx: nat, ys: seq<nat>, j: nat, i: nat)
    requires t.Valid() && codeIdx < |t.columns| && YearPositions(t, ys)
    requires j < |ys| && i < |t.rows|
    ensures Pos(j, i, |t.rows|) < |Melt(t, codeIdx, ys)|
    ensures Melt(t, codeIdx, ys)[Pos(j, i, |t.rows|)] == Entry(t, codeIdx, ys[j], i)
  {
    var n, m := |t.rows|, |ys|;
    var init := ys[..m - 1];
    var k := Pos(j, i, n);
    var front := Melt(t, codeIdx, init);
    var back := MeltColumn(t, codeIdx, ys[m - 1]);
    PosFacts(j, i, n, m);
    assert Melt(t, codeIdx, ys) == front + back;
    if j < m - 1 {
      MeltAt(t, codeIdx, init, j, i);
      assert init[j] == ys[j];
      assert (front + back)[k] == front[k];
    } else {
      assert (front + back)[k] == back[i];
    }
  }

  /** Melt holds the row for (table row i, year column ys[j]) at j·|rows| + i. */
  lemma MeltPositions<V>(t: Table<V>, codeIdx: nat, ys: seq<nat>)
    requires t.Valid() && codeIdx < |t.columns| && YearPositions(t, ys)
    ensures var out, n := Melt(t, codeIdx, ys), |t.rows|;
      forall j, i :: 0 <= j < |ys| && 0 <= i < n ==>
        Pos(j, i, n) < |out| && out[Pos(j, i, n)] == Entry(t, codeIdx, ys[j], i)
  {
    forall j, i | 0 <= j < |ys| && 0 <= i < |t.rows|
      ensures Pos(j, i, |t.rows|) < |Melt(t, codeIdx, ys)|
      ensures Melt(t, codeIdx, ys)[Pos(j, i, |t.rows|)] == Entry(t, codeIdx, ys[j], i)
    {
      MeltAt(t, codeIdx, ys, j, i);
    }
  }

  /** Every position of Melt holds the row for (table row k % |rows|, year
      column ys[k / |rows|]). */
  lemma MeltCovers<V>(t: Table<V>, codeIdx: nat, ys: seq<nat>)
    requires t.Valid() && codeIdx < |t.columns| && YearPositions(t, ys)
    ensures var out, n := Melt(t, codeIdx, ys), |t.rows|;
      forall k :: 0 <= k < |out| ==>
        n > 0 && k / n < |ys| && k % n < n && out[k] == Entry(t, codeIdx, ys[k / n], k % n)
  {
    var out, n := Melt(t, codeIdx, ys), |t.rows|;
    forall k | 0 <= k < |out|
      ensures n > 0 && k / n < |ys| && k % n < n && out[k] == Entry(t, codeIdx, ys[k / n], k % n)
    {
      PosCovers(k, n, |ys|);
      MeltAt(t, codeIdx, ys, k / n, k % n);
    }
  }

  /** The shape of `wide_to_long`'s output, for a table that has the code
      column and whose year headers fit in int64 (or that has no rows): the
      output has |rows| × |year columns| rows, and the row for (table row i,
      j-th year column) is at position j·|rows| + i. */
  lemma WideToLongShape<V>(t: Table<V>, codeCol: string, c: nat)
    requires t.Valid() && c < |t.columns| && t.columns[c] == codeCol
    requires |t.rows| == 0 || YearsFit(t.columns)
    ensures WideToLong(t, codeCol).Success?
    ensures var out, ys, n := WideToLong(t, codeCol).value, YearColumns(t.columns), |t.rows|;
      |out| == n * |ys| &&
      forall j, i :: 0 <= j < |ys| && 0 <= i < n ==>
        Pos(j, i, n) < |out| && out[Pos(j, i, n)] == Entry(t, c, ys[j], i)
  {
    WideToLongIsMelt(t, codeCol, c);
    MeltPositions(t, c, YearColumns(t.columns));
  }

  /** Conversely, every output position k of `wide_to_long` holds the row
      for (table row k % |rows|, year column k / |rows|); with
      `WideToLongShape`, each (row, year column) pair occurs exactly once. */
  lemma WideToLongCovers<V>(t: Table<V>, codeCol: string, c: nat)
    requires t.Valid() && c < |t.columns| && t.columns[c] == codeCol
    requires |t.rows| == 0 || YearsFit(t.columns)
    ensures WideToLong(t, codeCol).Success?
    ensures var out, ys, n := WideToLong(t, codeCol).value, YearColumns(t.columns), |t.rows|;
      forall k :: 0 <= k < |out| ==>
        n > 0 && k / n < |ys| && k % n < n && out[k] == Entry(t, c, ys[k / n], k % n)
  {
    WideToLongIsMelt(t, codeCol, c);
    MeltCovers(t, c, YearColumns(t.columns));
  }

  /** With the code column present and no oversized year header to convert,
      `wide_to_long` succeeds with the melted table. */
  lemma WideToLongIsMelt<V>(t: Table<V>, codeCol: string, c: nat)
    requires t.Valid() && c < |t.columns| && t.columns[c] == codeCol
    requires |t.rows| == 0 || YearsFit(t.columns)
    ensures WideToLong(t, codeCol) == Success(Melt(t, c, YearColumns(t.columns)))
  {
    var idx := IndexOf(t.columns, codeCol);
    assert idx.value == c;
  }

  /** Each long-form row of `wide_to_long` carries its table row's code, the
      cell under its year column, and as year the number written in that
      column's header; a header written as `str(y)` gives year `y`. */
  lemma WideToLongRow<V>(t: Table<V>, codeCol: string, c: nat, j: nat, i: nat)
    requires t.Valid() && c < |t.columns| && t.columns[c] == codeCol && YearsFit(t.columns)
    requires j < |YearColumns(t.columns)| && i < |t.rows|
    ensures WideToLong(t, codeCol).Success?
    ensures Pos(j, i, |t.rows|) < |WideToLong(t, codeCol).value|
    ensures var col, row := YearColumns(t.columns)[j], WideToLong(t, codeCol).value[Pos(j, i, |t.rows|)];
      row.code == t.rows[i][c] && row.value == t.rows[i][col] &&
      row.year == DigitsValue(t.columns[col]) < Int64Bound &&
      forall y: nat :: t.columns[col] == ShowNat(y) ==> row.year == y
  {
    WideToLongShape(t, codeCol, c);
  }
}
