/** `tratar_dados_faltantes` of the preprocessing module. `'mediana'` and
    `'media'` fill the NaN cells of every numeric column with the column's median
    or mean; `'moda'` fills every column with its most frequent value, the least
    one on a tie, and with 0 when the column holds no value at all; `'remover'`
    drops every row holding a NaN; any other name leaves the table unchanged. */
module Missing {
  import opened Wrappers
  import opened Seqs
  import opened Frames
  import opened Stats
  import opened Normalisation
  import Joins

  // ---------------------------------------------------------------------------
  // The order in which pandas sorts the modes of a column

  /** Python string comparison: code point by code point, a prefix first. */
  predicate StrLe(a: string, b: string)
    decreases |a|
  {
    |a| == 0 || (|b| > 0 && (a[0] < b[0] || (a[0] == b[0] && StrLe(a[1..], b[1..]))))
  }

  lemma {:induction false} StrLeTotal(a: string, b: string)
    ensures StrLe(a, b) || StrLe(b, a)
  {
    if |a| > 0 && |b| > 0 && a[0] == b[0] {
      StrLeTotal(a[1..], b[1..]);
    }
  }

  lemma {:induction false} StrLeTrans(a: string, b: string, c: string)
    requires StrLe(a, b) && StrLe(b, c)
    ensures StrLe(a, c)
  {
    if |a| > 0 && a[0] == b[0] && b[0] == c[0] {
      StrLeTrans(a[1..], b[1..], c[1..]);
    }
  }

  lemma {:induction false} StrLeAntisymmetric(a: string, b: string)
    requires StrLe(a, b) && StrLe(b, a)
    ensures a == b
  {
    if |a| > 0 {
      StrLeAntisymmetric(a[1..], b[1..]);
      assert a == [a[0]] + a[1..] && b == [b[0]] + b[1..];
    }
  }

  /** Two values `value_counts` counts as one: numbers by value, text by content. */
  predicate Same(a: Value, b: Value) {
    Joins.KeyEq(Some(a), Some(b))
  }

  /** The sort order of the modes: numbers by value, text as Python compares it,
      numbers before text. */
  predicate ValueLe(a: Value, b: Value) {
    match (a, b)
    case (Text(x), Text(y)) => StrLe(x, y)
    case (Text(_), _) => false
    case (_, Text(_)) => true
    case _ => Num(Some(a)).value <= Num(Some(b)).value
  }

  lemma ValueLeTotal(a: Value, b: Value)
    ensures ValueLe(a, b) || ValueLe(b, a)
  {
    if a.Text? && b.Text? {
      StrLeTotal(a.s, b.s);
    }
  }

  lemma ValueLeTrans(a: Value, b: Value, c: Value)
    requires ValueLe(a, b) && ValueLe(b, c)
    ensures ValueLe(a, c)
  {
    if a.Text? && b.Text? && c.Text? {
      StrLeTrans(a.s, b.s, c.s);
    }
  }

  /** Values ordered both ways are one value for `value_counts`. */
  lemma ValueLeAntisymmetric(a: Value, b: Value)
    requires ValueLe(a, b) && ValueLe(b, a)
    ensures Same(a, b)
  {
    if a.Text? && b.Text? {
      StrLeAntisymmetric(a.s, b.s);
    }
  }

  // ---------------------------------------------------------------------------
  // The mode

  /** The non-null cells of a column, in order. */
  function Values(col: seq<Cell>): (vs: seq<Value>)
    ensures |vs| <= |col|
    ensures forall v :: v in vs <==> Some(v) in col
  {
    if |col| == 0 then []
    else
      var rest := Values(col[1..]);
      assert forall c :: c in col <==> c == col[0] || c in col[1..];
      match col[0]
      case Some(v) => [v] + rest
      case None => rest
  }

  /** How often `v` occurs in `vs`, counting values that are the same. */
  function Occurs(vs: seq<Value>, v: Value): (n: nat)
    ensures n <= |vs|
  {
    if |vs| == 0 then 0
    else (if Same(vs[0], v) then 1 else 0) + Occurs(vs[1..], v)
  }

  /** `v` is at least as frequent as `w`, and no greater when as frequent. */
  predicate Beats(vs: seq<Value>, v: Value, w: Value) {
    Occurs(vs, w) < Occurs(vs, v) || (Occurs(vs, w) == Occurs(vs, v) && ValueLe(v, w))
  }

  /** `v` is the first entry of `Series.mode()`: a most frequent value, and the
      least of the most frequent ones. */
  predicate IsMode(vs: seq<Value>, v: Value) {
    v in vs && forall j :: 0 <= j < |vs| ==> Beats(vs, v, vs[j])
  }

  /** The best candidate among `best` and the values from position `k` on. */
  function BestFrom(vs: seq<Value>, k: nat, best: Value): (v: Value)
    requires k <= |vs| && best in vs
    requires forall j :: 0 <= j < k ==> Beats(vs, best, vs[j])
    ensures IsMode(vs, v)
    decreases |vs| - k
  {
    if k == |vs| then best
    else
      var w := vs[k];
      if Occurs(vs, w) > Occurs(vs, best) || (Occurs(vs, w) == Occurs(vs, best) && !ValueLe(best, w)) then
        ValueLeTotal(best, w);
        ValueLeTotal(w, w);
        forall j | 0 <= j < k + 1 ensures Beats(vs, w, vs[j]) {
          if j < k {
            assert Beats(vs, best, vs[j]);
          }
          if j < k && Occurs(vs, vs[j]) == Occurs(vs, w) && Occurs(vs, w) == Occurs(vs, best) {
            ValueLeTrans(w, best, vs[j]);
          }
        }
        BestFrom(vs, k + 1, w)
      else
        BestFrom(vs, k + 1, best)
  }

  /** `Series.mode().iloc[0]`, or nothing when the column holds no value. */
  function Mode(vs: seq<Value>): (m: Option<Value>)
    ensures m.None? <==> |vs| == 0
    ensures m.Some? ==> IsMode(vs, m.value)
  {
    if |vs| == 0 then None
    else
      ValueLeTotal(vs[0], vs[0]);
      Some(BestFrom(vs, 1, vs[0]))
  }

  /** The mode is determined: any two values meeting its definition are the same
      value. */
  lemma ModeUnique(vs: seq<Value>, v: Value, w: Value)
    requires IsMode(vs, v) && IsMode(vs, w)
    ensures Same(v, w)
  {
    var i :| 0 <= i < |vs| && vs[i] == w;
    var j :| 0 <= j < |vs| && vs[j] == v;
    assert Beats(vs, v, vs[i]) && Beats(vs, w, vs[j]);
    ValueLeAntisymmetric(v, w);
  }

  // ---------------------------------------------------------------------------
  // Filling

  /** `fillna(v)` on one cell; a NaN fill value changes nothing. */
  function FillCell(c: Cell, v: Cell): Cell {
    if c.None? then v else c
  }

  function FillColumn(f: Frame, c: string, v: Cell): (r: Frame)
    requires Valid(f) && Has(f, c)
    ensures Valid(r) && r.columns == f.columns && Keeps(f, r, {c})
    ensures forall i :: 0 <= i < |f.rows| ==> At(r, i, c) == FillCell(At(f, i, c), v)
  {
    Overwrite(f, c, seq(|f.rows|, i requires 0 <= i < |f.rows| => FillCell(At(f, i, c), v)))
  }

  /** `for col in cols: df[col].fillna(fill(df[col]), inplace=True)`. Filling one
      column leaves the others alone, so every fill value is the one computed on
      the original column. */
  function FillEach(f: Frame, cols: seq<string>, fill: seq<Cell> -> Cell): (r: Frame)
    requires Valid(f) && Distinct(cols) && forall c :: c in cols ==> Has(f, c)
    ensures Valid(r) && r.columns == f.columns && Keeps(f, r, set c | c in cols)
    ensures forall i, c :: 0 <= i < |f.rows| && c in cols ==> At(r, i, c) == FillCell(At(f, i, c), fill(Column(f, c)))
    decreases |cols|
  {
    if |cols| == 0 then f
    else
      var g := FillColumn(f, cols[0], fill(Column(f, cols[0])));
      assert Distinct(cols[1..]) by {
        forall i, j | 0 <= i < j < |cols[1..]| ensures cols[1..][i] != cols[1..][j] {
          assert cols[1..][i] == cols[i + 1] && cols[1..][j] == cols[j + 1];
        }
      }
      forall c | c in cols[1..] ensures Has(g, c) {
        var k :| 0 <= k < |cols[1..]| && cols[1..][k] == c;
        assert cols[k + 1] == c;
        assert Has(f, c);
      }
      var r := FillEach(g, cols[1..], fill);
      forall c | c in cols[1..] ensures Column(g, c) == Column(f, c) && c != cols[0] {
        ColumnKeptBy(f, g, {cols[0]}, c);
      }
      KeepsChain(f, g, r, {cols[0]}, set c | c in cols[1..], set c | c in cols);
      r
  }

  lemma ColumnKeptBy(f: Frame, g: Frame, except: set<string>, c: string)
    requires Keeps(f, g, except) && c in f.columns && c !in except
    ensures Column(g, c) == Column(f, c)
  {
  }

  /** The numeric columns, in order (`select_dtypes(include=[np.number])`). */
  function NumericColumns(f: Frame): (cols: seq<string>)
    requires Valid(f)
    ensures Distinct(cols)
    ensures forall c :: c in cols <==> Has(f, c) && NumericColumn(f, c)
  {
    FilterDistinct(f.columns, c => NumericColumn(f, c));
    var cols := Filter(f.columns, c => NumericColumn(f, c));
    forall c | Has(f, c) && NumericColumn(f, c) ensures c in cols {
      FilterKeeps(f.columns, c => NumericColumn(f, c), c);
    }
    cols
  }

  /** The median of the column's numbers; NaN when it has none. */
  function MedianFill(col: seq<Cell>): (v: Cell)
    ensures v.Some? <==> |Present(col)| > 0
    ensures v.Some? ==> v.value.Float? && SplitsInHalves(Present(col), v.value.x)
    ensures v.Some? ==> v.value.Float? && exists i, j :: (0 <= i < |Present(col)| && 0 <= j < |Present(col)|
      && LowerMiddle(Present(col), Present(col)[i]) && UpperMiddle(Present(col), Present(col)[j])
      && v.value.x == (Present(col)[i] + Present(col)[j]) / 2.0)
    ensures v.Some? ==> (v.value.Float? &&
      Present(col)[ArgMin(Present(col))] <= v.value.x <= Present(col)[ArgMax(Present(col))])
  {
    var xs := Present(col);
    if |xs| > 0 then
      var m := Median(xs);
      var i, j :| 0 <= i < |xs| && 0 <= j < |xs| && xs[i] <= m <= xs[j];
      assert xs[ArgMin(xs)] <= xs[i] && xs[j] <= xs[ArgMax(xs)];
      Some(Float(m))
    else None
  }

  /** The mean of the column's numbers; NaN when it has none. */
  function MeanFill(col: seq<Cell>): (v: Cell)
    ensures v.Some? <==> |Present(col)| > 0
    ensures v.Some? ==> (v.value.Float? &&
      Present(col)[ArgMin(Present(col))] <= v.value.x <= Present(col)[ArgMax(Present(col))])
  {
    var xs := Present(col);
    if |xs| > 0 then
      MeanBetween(xs);
      Some(Float(Mean(xs)))
    else None
  }

  /** The first mode of the column, or 0 when it holds no value. */
  function ModeFill(col: seq<Cell>): (v: Cell)
    ensures v.Some?
    ensures |Values(col)| == 0 ==> v == Some(Int(0))
    ensures |Values(col)| > 0 ==> IsMode(Values(col), v.value)
  {
    match Mode(Values(col))
    case Some(m) => Some(m)
    case None => Some(Int(0))
  }

  /** A row without NaN cells. */
  predicate Complete(row: Row) {
    forall k :: 0 <= k < |row| ==> row[k].Some?
  }

  predicate Incomplete(row: Row) {
    !Complete(row)
  }

  /** `dropna()`: the rows without a NaN, in order. */
  function DropNa(f: Frame): (r: Frame)
    requires Valid(f)
    ensures Valid(r) && r.columns == f.columns
    ensures r.rows == Filter(f.rows, Complete)
    ensures forall i, c :: 0 <= i < |r.rows| && Has(r, c) ==> At(r, i, c).Some?
    ensures |r.rows| + |Filter(f.rows, Incomplete)| == |f.rows|
  {
    var r := FilterRows(f, Complete);
    FilterSplit(f.rows, Complete, Incomplete);
    forall i, c | 0 <= i < |r.rows| && Has(r, c) ensures At(r, i, c).Some? {
      assert r.rows[i] in r.rows;
    }
    r
  }

  /** `'mediana'`: every NaN of a numeric column becomes the column's median;
      cells holding a value and non-numeric columns are untouched. */
  function FillMedian(f: Frame): (r: Frame)
    requires Valid(f)
    ensures Valid(r) && r.columns == f.columns && |r.rows| == |f.rows|
    ensures forall i, c :: 0 <= i < |f.rows| && At(f, i, c).Some? ==> At(r, i, c) == At(f, i, c)
    ensures forall i, c :: 0 <= i < |f.rows| && !NumericColumn(f, c) ==> At(r, i, c) == At(f, i, c)
    ensures forall i, c :: 0 <= i < |f.rows| && Has(f, c) && NumericColumn(f, c) && At(f, i, c).None? ==>
      At(r, i, c) == MedianFill(Column(f, c))
  {
    var cols := NumericColumns(f);
    var r := FillEach(f, cols, MedianFill);
    FilledOrKept(f, r, cols, MedianFill);
    r
  }

  /** `'media'`: every NaN of a numeric column becomes the column's mean. */
  function FillMean(f: Frame): (r: Frame)
    requires Valid(f)
    ensures Valid(r) && r.columns == f.columns && |r.rows| == |f.rows|
    ensures forall i, c :: 0 <= i < |f.rows| && At(f, i, c).Some? ==> At(r, i, c) == At(f, i, c)
    ensures forall i, c :: 0 <= i < |f.rows| && !NumericColumn(f, c) ==> At(r, i, c) == At(f, i, c)
    ensures forall i, c :: 0 <= i < |f.rows| && Has(f, c) && NumericColumn(f, c) && At(f, i, c).None? ==>
      At(r, i, c) == MeanFill(Column(f, c))
  {
    var cols := NumericColumns(f);
    var r := FillEach(f, cols, MeanFill);
    FilledOrKept(f, r, cols, MeanFill);
    r
  }

  /** `'moda'`: every NaN of every column becomes the column's first mode, or 0;
      afterwards no column holds a NaN. */
  function FillMode(f: Frame): (r: Frame)
    requires Valid(f)
    ensures Valid(r) && r.columns == f.columns && |r.rows| == |f.rows|
    ensures forall i, c :: 0 <= i < |f.rows| && At(f, i, c).Some? ==> At(r, i, c) == At(f, i, c)
    ensures forall i, c :: 0 <= i < |f.rows| && Has(f, c) && At(f, i, c).None? ==> At(r, i, c) == ModeFill(Column(f, c))
    ensures forall i, c :: 0 <= i < |f.rows| && Has(f, c) ==> At(r, i, c).Some?
  {
    var r := FillEach(f, f.columns, ModeFill);
    FilledOrKept(f, r, f.columns, ModeFill);
    r
  }

  /** What `FillEach` does to one cell, by whether the cell holds a value and
      whether its column is filled. */
  lemma FilledOrKept(f: Frame, r: Frame, cols: seq<string>, fill: seq<Cell> -> Cell)
    requires Valid(f) && r.columns == f.columns && Keeps(f, r, set c | c in cols)
    requires forall i, c :: 0 <= i < |f.rows| && c in cols ==> At(r, i, c) == FillCell(At(f, i, c), fill(Column(f, c)))
    ensures forall i, c :: 0 <= i < |f.rows| && At(f, i, c).Some? ==> At(r, i, c) == At(f, i, c)
    ensures forall i, c :: 0 <= i < |f.rows| && c !in cols ==> At(r, i, c) == At(f, i, c)
  {
    forall i, c | 0 <= i < |f.rows| && c !in cols ensures At(r, i, c) == At(f, i, c) {
      if !Has(f, c) {
        assert !Has(r, c);
      }
    }
  }

  /** `tratar_dados_faltantes(df, estrategia)`: the columns never change; the
      filling strategies keep every row and every cell that holds a value,
      `'remover'` leaves no NaN, and an unknown name changes nothing. */
  function Treat(f: Frame, estrategia: string): (r: Frame)
    requires Valid(f)
    ensures Valid(r) && r.columns == f.columns
    ensures estrategia != "remover" ==> (|r.rows| == |f.rows| &&
      forall i, c :: 0 <= i < |f.rows| && At(f, i, c).Some? ==> At(r, i, c) == At(f, i, c))
    ensures estrategia == "remover" ==> (r.rows == Filter(f.rows, Complete) &&
      forall i, c :: 0 <= i < |r.rows| && Has(r, c) ==> At(r, i, c).Some?)
    ensures estrategia == "moda" ==> forall i, c :: 0 <= i < |f.rows| && Has(f, c) ==> At(r, i, c).Some?
    ensures estrategia !in ["mediana", "media", "moda", "remover"] ==> r == f
  {
    if estrategia == "mediana" then FillMedian(f)
    else if estrategia == "media" then FillMean(f)
    else if estrategia == "moda" then FillMode(f)
    else if estrategia == "remover" then DropNa(f)
    else f
  }

  /** On a table whose numeric columns each hold at least one number, the median
      and mean strategies leave no NaN in a numeric column. */
  lemma TreatFillsNumeric(f: Frame, estrategia: string)
    requires Valid(f) && (estrategia == "mediana" || estrategia == "media")
    requires forall c :: Has(f, c) && NumericColumn(f, c) ==> |Present(Column(f, c))| > 0
    ensures forall i, c :: 0 <= i < |f.rows| && Has(f, c) && NumericColumn(f, c) ==> At(Treat(f, estrategia), i, c).Some?
  {
  }

  /** A numeric column without any number stays all NaN under the median and
      mean strategies: its median and mean are NaN themselves. */
  lemma TreatKeepsEmptyNumeric(f: Frame, estrategia: string, c: string)
    requires Valid(f) && (estrategia == "mediana" || estrategia == "media")
    requires Has(f, c) && NumericColumn(f, c) && |Present(Column(f, c))| == 0
    ensures forall i :: 0 <= i < |f.rows| ==> At(Treat(f, estrategia), i, c) == At(f, i, c)
  {
  }

  /** Two numeric columns, the first with a NaN in row 2. */
  const SampleTable: Frame := Frame(["col1", "col2"], [
    [Some(Int(1)), Some(Int(10))],
    [Some(Int(2)), Some(Int(20))],
    [None, Some(Int(30))],
    [Some(Int(4)), Some(Int(40))],
    [Some(Int(5)), Some(Int(50))]])

  /** A table with exactly one row holding a NaN loses exactly that row. */
  lemma DropOneRow(f: Frame, k: nat)
    requires Valid(f) && k < |f.rows| && !Complete(f.rows[k])
    requires forall j :: 0 <= j < |f.rows| && j != k ==> Complete(f.rows[j])
    ensures DropNa(f).rows == f.rows[..k] + f.rows[k + 1..]
    ensures |DropNa(f).rows| == |f.rows| - 1
  {
    var rows := f.rows;
    assert rows == rows[..k] + ([rows[k]] + rows[k + 1..]);
    FilterAppend(rows[..k], [rows[k]] + rows[k + 1..], Complete);
    FilterAppend([rows[k]], rows[k + 1..], Complete);
    FilterAll(rows[..k], Complete);
    FilterAll(rows[k + 1..], Complete);
    assert Filter([rows[k]], Complete) == [];
  }

  /** Dropping the rows with a NaN from the five-row table leaves four. */
  lemma RemoverExample()
    ensures Valid(SampleTable)
    ensures |Treat(SampleTable, "remover").rows| == 4
  {
    var rows: seq<Row> := SampleTable.rows;
    assert !Complete(rows[2]) by {
      assert rows[2][0] == None;
    }
    DropOneRow(SampleTable, 2);
    assert "remover"[0] != "mediana"[0] && "remover"[0] != "media"[0] && "remover"[0] != "moda"[0];
    assert Treat(SampleTable, "remover") == DropNa(SampleTable);
  }
}
