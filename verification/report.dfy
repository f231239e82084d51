/** The consolidated report over a batch of analyses: how many people were
    analysed, how the two models' predicted levels are distributed, and how
    many analyses the language model produced. The timestamp is left out. */
module Report {
  import opened Seqs
  import opened Wrappers
  import Levels

  /** The two models whose predictions the report counts. */
  datatype Model = RandomForest | XGBoost

  /** What the report reads of one analysis: the `classes` list of each model
      under `predicoes_ml` (`None` when the model key is absent; a model
      without a `classes` list reads as the empty list), and whether
      `analise_llm` is truthy. */
  datatype Analysis = Analysis(forest: Option<seq<int>>, boosted: Option<seq<int>>, llm: bool)

  /** A level name and how often the model predicted that level. */
  type Distribution = seq<(string, nat)>

  /** The report: `{}` for an empty batch, otherwise the total, the two
      distributions and the count of language-model analyses. */
  datatype Consolidated =
    | Empty
    | Consolidated(total: nat, forest: Distribution, boosted: Distribution, analysed: nat)

  /** The classes one analysis contributes for a model. */
  function ClassesOf(a: Analysis, m: Model): seq<int> {
    match m
    case RandomForest => a.forest.GetOr([])
    case XGBoost => a.boosted.GetOr([])
  }

  /** `predicoes_rf.extend(...)` / `predicoes_xgb.extend(...)` over the batch. */
  function Predictions(rs: seq<Analysis>, m: Model): (ps: seq<int>)
    ensures |rs| == 0 ==> ps == []
  {
    if |rs| == 0 then [] else ClassesOf(rs[0], m) + Predictions(rs[1..], m)
  }

  /** Collecting over two batches is collecting over each, in order. */
  lemma {:induction false} PredictionsAppend(a: seq<Analysis>, b: seq<Analysis>, m: Model)
    ensures Predictions(a + b, m) == Predictions(a, m) + Predictions(b, m)
  {
    if |a| > 0 {
      assert (a + b)[0] == a[0];
      assert (a + b)[1..] == a[1..] + b;
      PredictionsAppend(a[1..], b, m);
    } else {
      assert a + b == b;
    }
  }

  /** A model's count for a level is the sum of the analyses' own counts. */
  lemma {:induction false} PredictionsCount(rs: seq<Analysis>, m: Model, l: int)
    ensures Count(Predictions(rs, m), l) == if |rs| == 0 then 0 else Count(ClassesOf(rs[0], m), l) + Count(Predictions(rs[1..], m), l)
  {
    if |rs| > 0 {
      CountAppend(ClassesOf(rs[0], m), Predictions(rs[1..], m), l);
    }
  }

  /** A batch where no analysis carries the model has no predictions for it. */
  lemma {:induction false} PredictionsAbsent(rs: seq<Analysis>, m: Model)
    requires forall k :: 0 <= k < |rs| ==> ClassesOf(rs[k], m) == []
    ensures Predictions(rs, m) == []
  {
    if |rs| > 0 {
      assert ClassesOf(rs[0], m) == [];
      PredictionsAbsent(rs[1..], m);
    }
  }

  /** The dictionary comprehension over levels `i` from `l` to 3 that occur. */
  function Occurring(ps: seq<int>, l: int): (d: Distribution)
    requires 0 <= l <= 4
    ensures forall k :: 0 <= k < |d| ==> d[k].1 > 0
    decreases 4 - l
  {
    if l == 4 then []
    else if l in ps then [(Levels.LevelName(l), Count(ps, l))] + Occurring(ps, l + 1)
    else Occurring(ps, l + 1)
  }

  /** The distribution of one model's predictions; an empty list gives `{}`. */
  function DistributionOf(ps: seq<int>): Distribution {
    if |ps| == 0 then [] else Occurring(ps, 0)
  }

  /** The level names occurring in a distribution. */
  predicate Names(d: Distribution, name: string) {
    exists k :: 0 <= k < |d| && d[k].0 == name
  }

  /** An entry of the distribution: a level from `l` on that the model
      predicted, with its count. */
  predicate Entry(ps: seq<int>, l: int, e: (string, nat)) {
    exists v :: l <= v <= 3 && v in ps && e == (Levels.LevelName(v), Count(ps, v))
  }

  /** Every entry from level `l` on names a predicted level with its count. */
  lemma {:induction false} LevelsSound(ps: seq<int>, l: int)
    requires 0 <= l <= 4
    ensures forall k :: 0 <= k < |Occurring(ps, l)| ==> Entry(ps, l, Occurring(ps, l)[k])
    decreases 4 - l
  {
    if l < 4 {
      LevelsSound(ps, l + 1);
      var rest := Occurring(ps, l + 1);
      var d := Occurring(ps, l);
      if l in ps {
        assert d == [(Levels.LevelName(l), Count(ps, l))] + rest;
        forall k | 0 <= k < |d| ensures Entry(ps, l, d[k]) {
          if k > 0 {
            assert d[k] == rest[k - 1];
            assert Entry(ps, l + 1, rest[k - 1]);
          } else {
            assert d[k] == (Levels.LevelName(l), Count(ps, l));
          }
        }
      } else {
        forall k | 0 <= k < |d| ensures Entry(ps, l, d[k]) {
          assert Entry(ps, l + 1, rest[k]);
        }
      }
    }
  }

  /** A level from `l` on is named in the distribution exactly when the model
      predicted it. */
  lemma {:induction false} LevelsComplete(ps: seq<int>, l: int)
    requires 0 <= l <= 4
    ensures forall v :: l <= v <= 3 ==> (Names(Occurring(ps, l), Levels.LevelName(v)) <==> v in ps)
    decreases 4 - l
  {
    if l < 4 {
      LevelsComplete(ps, l + 1);
      NotNamedBefore(ps, l);
      var rest := Occurring(ps, l + 1);
      if l in ps {
        forall v | l <= v <= 3 ensures Names(Occurring(ps, l), Levels.LevelName(v)) <==> v in ps {
          NamesCons((Levels.LevelName(l), Count(ps, l)), rest, Levels.LevelName(v));
          NamesDistinct(v, l);
        }
      }
    }
  }

  /** A distribution headed by `e` names what `e` names and what the rest names. */
  lemma NamesCons(e: (string, nat), rest: Distribution, name: string)
    ensures Names([e] + rest, name) <==> e.0 == name || Names(rest, name)
  {
    var d := [e] + rest;
    assert d[0] == e;
    if e.0 == name {
      assert d[0].0 == name;
    }
    if Names(rest, name) {
      var k :| 0 <= k < |rest| && rest[k].0 == name;
      assert d[k + 1] == rest[k];
    }
    if Names(d, name) && e.0 != name {
      var k :| 0 <= k < |d| && d[k].0 == name;
      assert rest[k - 1] == d[k];
    }
  }

  /** The entries from level `l + 1` on never name level `l`. */
  lemma NotNamedBefore(ps: seq<int>, l: int)
    requires 0 <= l < 4
    ensures !Names(Occurring(ps, l + 1), Levels.LevelName(l))
  {
    var rest := Occurring(ps, l + 1);
    LevelsSound(ps, l + 1);
    if Names(rest, Levels.LevelName(l)) {
      var k :| 0 <= k < |rest| && rest[k].0 == Levels.LevelName(l);
      assert Entry(ps, l + 1, rest[k]);
      var w :| l + 1 <= w <= 3 && w in ps && rest[k] == (Levels.LevelName(w), Count(ps, w));
      NamesDistinct(w, l);
    }
  }

  /** The four level names are distinct. */
  lemma NamesDistinct(v: int, w: int)
    requires 0 <= v <= 3 && 0 <= w <= 3
    ensures Levels.LevelName(v) == Levels.LevelName(w) <==> v == w
  {
  }

  /** Predictions that are one of the four levels. */
  predicate IsLevel(c: int) {
    0 <= c <= 3
  }

  /** The counts in the distribution from level `l` on. */
  function Counted(d: Distribution): nat {
    if |d| == 0 then 0 else d[0].1 + Counted(d[1..])
  }

  /** Occurrences of levels `l` to 3. */
  function LevelsFrom(ps: seq<int>, l: int): nat
    requires 0 <= l <= 4
    decreases 4 - l
  {
    if l == 4 then 0 else Count(ps, l) + LevelsFrom(ps, l + 1)
  }

  /** The distribution counts every prediction that is one of the four
      levels, and nothing else: classes outside 0..3 are dropped. */
  lemma DistributionTotal(ps: seq<int>)
    ensures Counted(DistributionOf(ps)) == |Filter(ps, IsLevel)|
  {
    LevelsCounted(ps, 0);
    LevelsFiltered(ps);
  }

  lemma {:induction false} LevelsCounted(ps: seq<int>, l: int)
    requires 0 <= l <= 4
    ensures Counted(Occurring(ps, l)) == LevelsFrom(ps, l)
    decreases 4 - l
  {
    if l < 4 {
      LevelsCounted(ps, l + 1);
      if l in ps {
        assert Occurring(ps, l)[1..] == Occurring(ps, l + 1);
      }
    }
  }

  lemma {:induction false} LevelsFiltered(ps: seq<int>)
    ensures LevelsFrom(ps, 0) == |Filter(ps, IsLevel)|
  {
    if |ps| > 0 {
      LevelsFiltered(ps[1..]);
      assert LevelsFrom(ps, 0) == Count(ps, 0) + Count(ps, 1) + Count(ps, 2) + Count(ps, 3);
      assert LevelsFrom(ps[1..], 0) == Count(ps[1..], 0) + Count(ps[1..], 1) + Count(ps[1..], 2) + Count(ps[1..], 3);
    }
  }

  /** `sum(1 for r in resultados if r.get('analise_llm'))`. */
  function Analysed(rs: seq<Analysis>): nat {
    if |rs| == 0 then 0 else (if rs[0].llm then 1 else 0) + Analysed(rs[1..])
  }

  /** The language-model count is the number of analyses that have one, and it
      equals the batch size exactly when every analysis has one. */
  lemma {:induction false} AnalysedMeaning(rs: seq<Analysis>)
    ensures Analysed(rs) == |Filter(rs, (a: Analysis) => a.llm)|
    ensures Analysed(rs) == |rs| <==> forall k :: 0 <= k < |rs| ==> rs[k].llm
  {
    if |rs| > 0 {
      AnalysedMeaning(rs[1..]);
      if !rs[0].llm {
        assert Analysed(rs[1..]) <= |rs[1..]|;
      }
      if forall k :: 0 <= k < |rs[1..]| ==> rs[1..][k].llm {
        if rs[0].llm {
          forall k | 0 <= k < |rs| ensures rs[k].llm {
            if k > 0 {
              assert rs[k] == rs[1..][k - 1];
            }
          }
        }
      } else {
        var k :| 0 <= k < |rs[1..]| && !rs[1..][k].llm;
        assert !rs[k + 1].llm;
      }
    }
  }

  /** `gerar_relatorio_consolidado(resultados)` without the timestamp. */
  function Consolidate(rs: seq<Analysis>): (r: Consolidated)
    ensures r.Empty? <==> |rs| == 0
    ensures r.Consolidated? ==> r.total == |rs| && r.analysed <= r.total
  {
    if |rs| == 0 then Empty
    else
      AnalysedMeaning(rs);
      Consolidated(|rs|, DistributionOf(Predictions(rs, RandomForest)),
                   DistributionOf(Predictions(rs, XGBoost)), Analysed(rs))
  }

  /** What the report says of a non-empty batch: a level of a model is listed
      exactly when some analysis predicted it, with the number of times it
      was predicted across the batch, and the listed counts add up to the
      predictions that are levels. */
  lemma ConsolidateMeaning(rs: seq<Analysis>, m: Model, v: int)
    requires |rs| > 0 && 0 <= v <= 3
    ensures var r := Consolidate(rs);
      var d := if m == RandomForest then r.forest else r.boosted;
      var ps := Predictions(rs, m);
      && (Names(d, Levels.LevelName(v)) <==> v in ps)
      && (forall k :: 0 <= k < |d| && d[k].0 == Levels.LevelName(v) ==> d[k].1 == Count(ps, v))
      && Counted(d) == |Filter(ps, IsLevel)|
  {
    var ps := Predictions(rs, m);
    LevelsSound(ps, 0);
    LevelsComplete(ps, 0);
    DistributionTotal(ps);
    var d := DistributionOf(ps);
    forall k | 0 <= k < |d| && d[k].0 == Levels.LevelName(v) ensures d[k].1 == Count(ps, v) {
      assert Entry(ps, 0, d[k]);
      var w :| 0 <= w <= 3 && w in ps && d[k] == (Levels.LevelName(w), Count(ps, w));
      NamesDistinct(v, w);
    }
  }
}
