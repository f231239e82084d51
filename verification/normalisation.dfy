/** Batch z-score of a numeric column, as `(col - col.mean()) / col.std()`
    computes it with pandas' defaults: NaN cells are skipped by both statistics
    and stay NaN, the standard deviation is the sample one (divisor n - 1), and
    a batch with fewer than two values or with no spread yields NaN everywhere. */
module Normalisation {
  import opened Wrappers
  import opened Frames
  import opened Stats

  /** The numbers of a column, in order, NaN and text cells skipped. */
  function Present(col: seq<Cell>): (xs: seq<real>)
    ensures |xs| <= |col|
  {
    if |col| == 0 then []
    else match Num(col[0])
      case Some(x) => [x] + Present(col[1..])
      case None => Present(col[1..])
  }

  predicate Constant(xs: seq<real>) {
    forall i :: 0 <= i < |xs| ==> xs[i] == xs[0]
  }

  /** The batch has a defined, non-zero standard deviation. */
  predicate Spread(col: seq<Cell>) {
    |Present(col)| >= 2 && !Constant(Present(col))
  }

  function ZCell(c: Cell, m: real, sd: real): Cell
    requires sd != 0.0
  {
    match Num(c)
    case Some(x) => Some(Float((x - m) / sd))
    case None => None
  }

  function ZCells(col: seq<Cell>, m: real, sd: real): (zs: seq<Cell>)
    requires sd != 0.0
    ensures |zs| == |col|
    ensures forall i :: 0 <= i < |col| ==> zs[i] == ZCell(col[i], m, sd)
  {
    if |col| == 0 then [] else [ZCell(col[0], m, sd)] + ZCells(col[1..], m, sd)
  }

  /** `(x - m) / sd` for every value of `xs`. */
  function Centre(xs: seq<real>, m: real, sd: real): (ys: seq<real>)
    requires sd != 0.0
    ensures |ys| == |xs|
  {
    if |xs| == 0 then [] else [(xs[0] - m) / sd] + Centre(xs[1..], m, sd)
  }

  /** The normalised column. */
  function ZScores(col: seq<Cell>, sqrt: real -> real): (zs: seq<Cell>)
    ensures |zs| == |col|
  {
    var xs := Present(col);
    if |xs| < 2 then Repeat(|col|, None)
    else
      var sd := sqrt(SampleVariance(xs));
      if sd == 0.0 then Repeat(|col|, None)
      else ZCells(col, Mean(xs), sd)
  }

  /** The normalisation as a column transformer. */
  function ZScoring(sqrt: real -> real): (norm: seq<Cell> -> seq<Cell>)
    ensures forall col :: norm(col) == ZScores(col, sqrt)
  {
    col => ZScores(col, sqrt)
  }

  /** A cell is normalised exactly when it holds a number and the batch has
      spread; normalised cells are floats, ordered as the numbers they came from. */
  lemma ZScoresMeaning(col: seq<Cell>, sqrt: real -> real)
    requires IsSqrt(sqrt)
    ensures forall i :: 0 <= i < |col| ==> (ZScores(col, sqrt)[i].Some? <==> Num(col[i]).Some? && Spread(col))
    ensures forall i :: 0 <= i < |col| ==> ZScores(col, sqrt)[i].None? || ZScores(col, sqrt)[i].value.Float?
    ensures forall i, j :: 0 <= i < |col| && 0 <= j < |col| && ZScores(col, sqrt)[i].Some? && ZScores(col, sqrt)[j].Some? ==>
      (Num(col[i]).value <= Num(col[j]).value <==> ZScores(col, sqrt)[i].value.x <= ZScores(col, sqrt)[j].value.x)
  {
    var xs := Present(col);
    if |xs| >= 2 {
      var m := Mean(xs);
      var v := SampleVariance(xs);
      var sd := sqrt(v);
      VarianceZeroIffConstant(xs);
      SqrtZero(sqrt, v);
      if sd != 0.0 {
        ZCellsOrder(col, m, sd);
      }
    }
  }

  lemma ZCellsOrder(col: seq<Cell>, m: real, sd: real)
    requires sd > 0.0
    ensures forall i, j :: 0 <= i < |col| && 0 <= j < |col| && ZCells(col, m, sd)[i].Some? && ZCells(col, m, sd)[j].Some? ==>
      (Num(col[i]).value <= Num(col[j]).value <==> ZCells(col, m, sd)[i].value.x <= ZCells(col, m, sd)[j].value.x)
  {
    var zs := ZCells(col, m, sd);
    forall i, j | 0 <= i < |col| && 0 <= j < |col| && zs[i].Some? && zs[j].Some?
      ensures Num(col[i]).value <= Num(col[j]).value <==> zs[i].value.x <= zs[j].value.x
    {
      DivMonotone(Num(col[i]).value - m, Num(col[j]).value - m, sd);
    }
  }

  lemma DivMonotone(a: real, b: real, c: real)
    requires c > 0.0
    ensures a <= b <==> a / c <= b / c
  {
    if a <= b {
      assert b / c - a / c == (b - a) / c;
    } else {
      assert a / c - b / c == (a - b) / c;
    }
  }

  /** When the spread is zero every present value equals the mean, so each
      quotient is 0 / 0, which is NaN rather than an infinity. */
  lemma ZeroSpreadIsZeroOverZero(xs: seq<real>, sqrt: real -> real, i: int)
    requires IsSqrt(sqrt) && |xs| >= 2 && 0 <= i < |xs|
    requires sqrt(SampleVariance(xs)) == 0.0
    ensures xs[i] - Mean(xs) == 0.0
  {
    SqrtZero(sqrt, SampleVariance(xs));
    VarianceZeroIffConstant(xs);
    SumConstant(xs, xs[0]);
  }

  lemma {:induction false} PresentZCells(col: seq<Cell>, m: real, sd: real)
    requires sd != 0.0
    ensures Present(ZCells(col, m, sd)) == Centre(Present(col), m, sd)
  {
    if |col| > 0 {
      PresentZCells(col[1..], m, sd);
      assert ZCells(col, m, sd)[1..] == ZCells(col[1..], m, sd);
    }
  }

  lemma {:induction false} SumCentre(xs: seq<real>, m: real, sd: real)
    requires sd != 0.0
    ensures Sum(Centre(xs, m, sd)) == (Sum(xs) - (|xs| as real) * m) / sd
  {
    if |xs| > 0 {
      SumCentre(xs[1..], m, sd);
      var a := xs[0] - m;
      var b := Sum(xs[1..]) - ((|xs| - 1) as real) * m;
      assert a / sd + b / sd == (a + b) / sd;
    }
  }

  /** The normalised values of a batch with spread sum to zero: the column is
      centred on its mean. */
  lemma ZScoresCentred(col: seq<Cell>, sqrt: real -> real)
    requires IsSqrt(sqrt) && Spread(col)
    ensures Sum(Present(ZScores(col, sqrt))) == 0.0
  {
    var xs := Present(col);
    var m := Mean(xs);
    var v := SampleVariance(xs);
    VarianceZeroIffConstant(xs);
    SqrtZero(sqrt, v);
    var sd := sqrt(v);
    assert ZScores(col, sqrt) == ZCells(col, m, sd);
    PresentZCells(col, m, sd);
    CentreAtMean(xs, sd);
  }

  lemma CentreAtMean(xs: seq<real>, sd: real)
    requires |xs| > 0 && sd != 0.0
    ensures Sum(Centre(xs, Mean(xs), sd)) == 0.0
  {
    var m := Mean(xs);
    SumCentre(xs, m, sd);
    MeanTimesCount(xs);
    var t := Sum(xs) - (|xs| as real) * m;
    assert t == 0.0;
  }

  lemma MeanTimesCount(xs: seq<real>)
    requires |xs| > 0
    ensures (|xs| as real) * Mean(xs) == Sum(xs)
  {
    var n := |xs| as real;
    assert n > 0.0;
    assert Mean(xs) == Sum(xs) / n;
  }
}
