/** A pandas DataFrame as the pipeline uses it: an ordered list of distinct column
    names and rows of nullable cells, one cell per column. A `None` cell is pandas'
    NaN / missing value. Assigning a column keeps the position of an existing column
    and appends a new one at the end, as `df[c] = ...` does. */
module Frames {
  import opened Wrappers
  import opened Seqs

  /** A cell value as `read_csv` infers it: an integer, a float or a string. */
  datatype Value = Int(i: int) | Float(x: real) | Text(s: string)

  type Cell = Option<Value>

  type Row = seq<Cell>

  datatype Frame = Frame(columns: seq<string>, rows: seq<Row>)

  /** Why an operation raises: a `KeyError` on an absent column, a `TypeError` /
      `ValueError` on a text cell where a number is needed, a duplicate column name
      produced by a merge or rename, or no reader configuration that parses. */
  datatype Error =
    | MissingColumn(name: string)
    | TypeMismatch(name: string)
    | DuplicateColumn(name: string)
    | UndetectedFormat

  /** Distinct column names and one cell per column in every row. */
  predicate Valid(f: Frame) {
    && Distinct(f.columns)
    && forall i :: 0 <= i < |f.rows| ==> |f.rows[i]| == |f.columns|
  }

  function IndexOf(cols: seq<string>, c: string): (k: nat)
    requires c in cols
    ensures k < |cols| && cols[k] == c
    ensures forall j :: 0 <= j < k ==> cols[j] != c
  {
    if cols[0] == c then 0 else 1 + IndexOf(cols[1..], c)
  }

  lemma {:induction false} IndexOfAppend(cols: seq<string>, extra: seq<string>, c: string)
    requires c in cols
    ensures IndexOf(cols + extra, c) == IndexOf(cols, c)
  {
    if cols[0] != c {
      assert (cols + extra)[1..] == cols[1..] + extra;
      IndexOfAppend(cols[1..], extra, c);
    }
  }

  lemma IndexOfDistinct(cols: seq<string>, j: int)
    requires Distinct(cols) && 0 <= j < |cols|
    ensures IndexOf(cols, cols[j]) == j
  {
  }

  predicate Has(f: Frame, c: string) {
    c in f.columns
  }

  /** The cell of row `i` in column `c`; an absent column reads as null. */
  function At(f: Frame, i: int, c: string): Cell
    requires 0 <= i < |f.rows|
  {
    if c in f.columns && IndexOf(f.columns, c) < |f.rows[i]| then f.rows[i][IndexOf(f.columns, c)]
    else None
  }

  function Column(f: Frame, c: string): (col: seq<Cell>)
    ensures |col| == |f.rows|
    ensures forall i :: 0 <= i < |col| ==> col[i] == At(f, i, c)
  {
    seq(|f.rows|, i requires 0 <= i < |f.rows| => At(f, i, c))
  }

  /** The numeric value of a cell, if it holds a number. */
  function Num(c: Cell): Option<real> {
    match c
    case Some(Int(n)) => Some(n as real)
    case Some(Float(x)) => Some(x)
    case _ => None
  }

  /** A cell pandas arithmetic accepts: a number or NaN. */
  predicate IsNumeric(c: Cell) {
    c.None? || !c.value.Text?
  }

  predicate NumericColumn(f: Frame, c: string) {
    forall i :: 0 <= i < |f.rows| ==> IsNumeric(At(f, i, c))
  }

  /** pandas `cell == k` for a number `k`: false for NaN and for text. */
  predicate NumEq(c: Cell, k: real) {
    Num(c) == Some(k)
  }

  /** Python `astype(int)` of a float: truncation toward zero. */
  function Trunc(x: real): (n: int)
    ensures 0.0 <= x ==> n as real <= x < n as real + 1.0
    ensures x < 0.0 ==> n as real - 1.0 < x <= n as real
  {
    if 0.0 <= x then x.Floor else -((-x).Floor)
  }

  /** The first name of `cols` that is not a column of `f`, if any. */
  function FirstMissing(f: Frame, cols: seq<string>): (m: Option<string>)
    ensures m.None? <==> forall c :: c in cols ==> Has(f, c)
    ensures m.Some? ==> m.value in cols && !Has(f, m.value)
  {
    if |cols| == 0 then None
    else if !Has(f, cols[0]) then Some(cols[0])
    else FirstMissing(f, cols[1..])
  }

  /** The first name of `cols` whose column holds a text cell, if any. */
  function FirstNonNumeric(f: Frame, cols: seq<string>): (m: Option<string>)
    ensures m.None? <==> forall c :: c in cols ==> NumericColumn(f, c)
    ensures m.Some? ==> m.value in cols && !NumericColumn(f, m.value)
  {
    if |cols| == 0 then None
    else if !NumericColumn(f, cols[0]) then Some(cols[0])
    else FirstNonNumeric(f, cols[1..])
  }

  /** The error pandas raises first when `present` must be columns and the
      columns `numeric` must hold only numbers or NaN; `Ok` when neither fails. */
  function Require(f: Frame, present: seq<string>, numeric: seq<string>): (r: Result<bool, Error>)
    ensures r.Ok? <==> (forall c :: c in present ==> Has(f, c)) && (forall c :: c in numeric ==> NumericColumn(f, c))
  {
    match FirstMissing(f, present)
    case Some(c) => Err(MissingColumn(c))
    case None =>
      match FirstNonNumeric(f, numeric)
      case Some(c) => Err(TypeMismatch(c))
      case None => Ok(true)
  }

  /** `f` and `r` have the same rows and every column of `f` outside `except`
      keeps its position and its cells. */
  ghost predicate Keeps(f: Frame, r: Frame, except: set<string>) {
    && |r.rows| == |f.rows|
    && f.columns <= r.columns
    && forall i, d :: 0 <= i < |f.rows| && d in f.columns && d !in except ==> At(r, i, d) == At(f, i, d)
  }

  lemma KeepsTrans(f: Frame, g: Frame, h: Frame, e1: set<string>, e2: set<string>)
    requires Keeps(f, g, e1) && Keeps(g, h, e2)
    ensures Keeps(f, h, e1 + e2)
  {
    forall i, d | 0 <= i < |f.rows| && d in f.columns && d !in e1 + e2
      ensures At(h, i, d) == At(f, i, d)
    {
      assert d in g.columns;
    }
  }

  /** Two steps that each keep everything outside `e` keep it together. */
  lemma KeepsChain(f: Frame, g: Frame, h: Frame, e1: set<string>, e2: set<string>, e: set<string>)
    requires Keeps(f, g, e1) && Keeps(g, h, e2) && e1 <= e && e2 <= e
    ensures Keeps(f, h, e)
  {
    forall i, d | 0 <= i < |f.rows| && d in f.columns && d !in e
      ensures At(h, i, d) == At(f, i, d)
    {
      assert d in g.columns;
    }
  }

  /** A row of `f` widened with `tail` under the names `extra` reads as the
      original row in the old columns and as `tail` in the new ones. */
  lemma AtWidened(m: Frame, f: Frame, extra: seq<string>, i: int, j: int, tail: Row)
    requires Valid(f) && Distinct(m.columns) && m.columns == f.columns + extra
    requires 0 <= i < |m.rows| && 0 <= j < |f.rows| && m.rows[i] == f.rows[j] + tail && |tail| == |extra|
    ensures forall d :: d in f.columns ==> At(m, i, d) == At(f, j, d)
    ensures forall t :: 0 <= t < |extra| ==> At(m, i, extra[t]) == tail[t]
  {
    forall d | d in f.columns ensures At(m, i, d) == At(f, j, d) {
      IndexOfAppend(f.columns, extra, d);
    }
    forall t | 0 <= t < |extra| ensures At(m, i, extra[t]) == tail[t] {
      IndexOfDistinct(m.columns, |f.columns| + t);
    }
  }

  /** `df[c] = vals`: overwrite column `c` in place, or append it when absent. */
  function SetColumn(f: Frame, c: string, vals: seq<Cell>): (r: Frame)
    requires Valid(f) && |vals| == |f.rows|
    ensures Valid(r)
    ensures r.columns == if Has(f, c) then f.columns else f.columns + [c]
    ensures |r.rows| == |f.rows|
    ensures forall i :: 0 <= i < |r.rows| ==> At(r, i, c) == vals[i]
    ensures Column(r, c) == vals
    ensures Keeps(f, r, {c})
  {
    if Has(f, c) then Overwrite(f, c, vals) else Append(f, c, vals)
  }

  function Overwrite(f: Frame, c: string, vals: seq<Cell>): (r: Frame)
    requires Valid(f) && Has(f, c) && |vals| == |f.rows|
    ensures Valid(r) && r.columns == f.columns && |r.rows| == |f.rows|
    ensures forall i :: 0 <= i < |r.rows| ==> At(r, i, c) == vals[i]
    ensures Keeps(f, r, {c})
  {
    var k := IndexOf(f.columns, c);
    var r := Frame(f.columns, seq(|f.rows|, i requires 0 <= i < |f.rows| => f.rows[i][k := vals[i]]));
    forall i, d | 0 <= i < |f.rows| && d in f.columns && d != c
      ensures At(r, i, d) == At(f, i, d)
    {
      var kd := IndexOf(f.columns, d);
      assert kd != k;
      assert r.rows[i][kd] == f.rows[i][kd];
    }
    r
  }

  function Append(f: Frame, c: string, vals: seq<Cell>): (r: Frame)
    requires Valid(f) && !Has(f, c) && |vals| == |f.rows|
    ensures Valid(r) && r.columns == f.columns + [c] && |r.rows| == |f.rows|
    ensures forall i :: 0 <= i < |r.rows| ==> At(r, i, c) == vals[i]
    ensures Keeps(f, r, {c})
  {
    var r := Frame(f.columns + [c], seq(|f.rows|, i requires 0 <= i < |f.rows| => f.rows[i] + [vals[i]]));
    assert IndexOf(r.columns, c) == |f.columns| by {
      IndexOfDistinct(r.columns, |f.columns|);
    }
    forall i, d | 0 <= i < |f.rows| && d in f.columns
      ensures At(r, i, d) == At(f, i, d)
    {
      IndexOfAppend(f.columns, [c], d);
      var kd := IndexOf(f.columns, d);
      assert r.rows[i][kd] == f.rows[i][kd];
    }
    r
  }

  /** A column holding `v` in every one of `n` rows (a scalar broadcast). */
  function Repeat(n: nat, v: Cell): (s: seq<Cell>)
    ensures |s| == n && forall i :: 0 <= i < n ==> s[i] == v
  {
    seq(n, _ => v)
  }

  /** The first assignment `df[c] = series` into an empty `pd.DataFrame()`: the
      new frame takes one row per element of the series. */
  function FromColumn(c: string, vals: seq<Cell>): (r: Frame)
    ensures Valid(r) && r.columns == [c] && |r.rows| == |vals|
    ensures forall i :: 0 <= i < |vals| ==> At(r, i, c) == vals[i]
  {
    Frame([c], seq(|vals|, i requires 0 <= i < |vals| => [vals[i]]))
  }

  /** `df[cols]`: the listed columns in the listed order, or the `KeyError` for
      the first one missing. */
  function Select(f: Frame, cols: seq<string>): (r: Result<Frame, Error>)
    requires Valid(f) && Distinct(cols)
    ensures r.Ok? <==> forall c :: c in cols ==> Has(f, c)
    ensures r.Err? ==> exists c :: c in cols && r.error == MissingColumn(c) && !Has(f, c)
    ensures r.Ok? ==> Valid(r.value) && r.value.columns == cols && |r.value.rows| == |f.rows|
    ensures r.Ok? ==> forall i, c :: 0 <= i < |f.rows| && c in cols ==> At(r.value, i, c) == At(f, i, c)
  {
    match FirstMissing(f, cols)
    case Some(c) => Err(MissingColumn(c))
    case None =>
      var r := Frame(cols, seq(|f.rows|, i requires 0 <= i < |f.rows| =>
        seq(|cols|, j requires 0 <= j < |cols| => At(f, i, cols[j]))));
      assert forall c :: c in cols ==> cols[IndexOf(cols, c)] == c;
      Ok(r)
  }

  /** The cell at position `k` of a row, null when the row is too short. */
  function CellOf(row: Row, k: nat): Cell {
    if k < |row| then row[k] else None
  }

  /** Boolean row indexing `df[mask]`: keep, in order, the rows that satisfy `keep`. */
  function FilterRows(f: Frame, keep: Row -> bool): (r: Frame)
    requires Valid(f)
    ensures Valid(r) && r.columns == f.columns
    ensures r.rows == Filter(f.rows, keep)
  {
    var r := Frame(f.columns, Filter(f.rows, keep));
    assert forall row :: row in f.rows ==> |row| == |f.columns|;
    r
  }

  /** The rows whose cell in column `c` satisfies `test`, in order (`df[test(df[c])]`). */
  function Where(f: Frame, c: string, test: Cell -> bool): (r: Frame)
    requires Valid(f) && Has(f, c)
    ensures Valid(r) && r.columns == f.columns
    ensures r.rows == Filter(f.rows, (row: Row) => test(CellOf(row, IndexOf(f.columns, c))))
    ensures forall i :: 0 <= i < |r.rows| ==> test(At(r, i, c))
    ensures forall row :: row in f.rows && test(CellOf(row, IndexOf(f.columns, c))) ==> row in r.rows
  {
    var k := IndexOf(f.columns, c);
    var keep := (row: Row) => test(CellOf(row, k));
    var r := FilterRows(f, keep);
    forall row | row in f.rows && test(CellOf(row, k)) ensures row in r.rows {
      FilterKeeps(f.rows, keep, row);
    }
    forall i | 0 <= i < |r.rows| ensures test(At(r, i, c)) {
      var row := r.rows[i];
      assert row in r.rows;
      assert row in f.rows && keep(row);
      assert |row| == |f.columns|;
      assert At(r, i, c) == row[k];
      assert CellOf(row, k) == row[k];
      assert test(CellOf(row, k));
    }
    r
  }

  /** `df.rename(columns={src: dst})`; an absent `src` is ignored, as pandas does.
      A rename onto a name already used is reported instead of producing two
      columns with one name. */
  function Rename(f: Frame, src: string, dst: string): (r: Result<Frame, Error>)
    requires Valid(f)
    ensures !Has(f, src) ==> r == Ok(f)
    ensures Has(f, src) && src != dst && Has(f, dst) ==> r == Err(DuplicateColumn(dst))
    ensures r.Ok? ==> Valid(r.value) && r.value.rows == f.rows && |r.value.columns| == |f.columns|
    ensures r.Ok? && Has(f, src) ==> !Has(r.value, src) || src == dst
    ensures r.Ok? && Has(f, src) ==> forall i :: 0 <= i < |f.rows| ==> At(r.value, i, dst) == At(f, i, src)
    ensures r.Ok? ==> forall i, d :: 0 <= i < |f.rows| && d != src && d != dst ==> At(r.value, i, d) == At(f, i, d)
    ensures r.Ok? ==> forall d :: d != src && d != dst ==> (Has(r.value, d) <==> Has(f, d))
    ensures r.Ok? ==> (Has(r.value, dst) <==> Has(f, src) || Has(f, dst))
  {
    if !Has(f, src) || src == dst then Ok(f)
    else if Has(f, dst) then Err(DuplicateColumn(dst))
    else
      var k := IndexOf(f.columns, src);
      var r := Frame(f.columns[k := dst], f.rows);
      RenamedAt(f, src, dst, k);
      Ok(r)
  }

  /** The column at `k` renamed to an unused name: a valid frame whose other
      names keep their positions. */
  lemma RenamedAt(f: Frame, src: string, dst: string, k: nat)
    requires Valid(f) && k < |f.columns| && f.columns[k] == src && src != dst && !Has(f, dst)
    ensures var r := Frame(f.columns[k := dst], f.rows);
      && Valid(r) && !Has(r, src) && Has(r, dst)
      && (forall i :: 0 <= i < |f.rows| ==> At(r, i, dst) == At(f, i, src))
      && (forall d :: d != src && d != dst ==> (Has(r, d) <==> Has(f, d)))
      && (forall i, d :: 0 <= i < |f.rows| && d != src && d != dst ==> At(r, i, d) == At(f, i, d))
  {
    var cols := f.columns[k := dst];
    assert forall j :: 0 <= j < |cols| && j != k ==> cols[j] == f.columns[j] && cols[j] != dst;
    assert Valid(Frame(cols, f.rows));
    IndexOfDistinct(f.columns, k);
    IndexOfDistinct(cols, k);
    RenamedIndices(f.columns, cols, src, dst, k);
  }

  lemma RenamedIndices(before: seq<string>, cols: seq<string>, src: string, dst: string, k: nat)
    requires Distinct(before) && Distinct(cols) && k < |before| && cols == before[k := dst] && before[k] == src && dst !in before
    ensures forall d :: d in before && d != src ==> d in cols && IndexOf(cols, d) == IndexOf(before, d)
    ensures forall d :: d !in before && d != dst ==> d !in cols
    ensures src !in cols
  {
    forall d | d in before && d != src ensures d in cols && IndexOf(cols, d) == IndexOf(before, d) {
      var j := IndexOf(before, d);
      assert cols[j] == d;
      IndexOfDistinct(cols, j);
    }
  }
}
