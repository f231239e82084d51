/** `preparar_dados_para_ml`: the feature matrix (fourteen numeric columns, plus
    the Bolsa Familia flag when the table has it) and the numeric target coded
    from the vulnerability tier. */
module Training {
  import opened Wrappers
  import opened Seqs
  import opened Frames
  import opened Levels
  import opened Features
  import opened Derivation

  /** The fourteen feature columns, in the order the matrix lists them. */
  const BaseFeatures: seq<string> := [
    Idade, Escolaridade, RendaPerCapita, QtdPessoas, PossuiDeficiencia, SituacaoTrabalho, TipoMoradia,
    AcessoAgua, AcessoEsgoto, VulnerabilidadeIdade, InfraestruturaAdequada, EscolaridadeBaixa,
    TrabalhoPrecario, Superlotacao
  ]

  /** The matrix columns for table `f`: the flag joins only when present. */
  function FeatureColumns(f: Frame): seq<string> {
    if Has(f, RecebeBolsa) then BaseFeatures + [RecebeBolsa] else BaseFeatures
  }

  datatype Dataset = Dataset(x: Frame, y: seq<Cell>)

  lemma FeatureNames()
    ensures |Idade| == 5 && |Escolaridade| == 12 && |RendaPerCapita| == 16 && |QtdPessoas| == 19
    ensures |PossuiDeficiencia| == 18 && |SituacaoTrabalho| == 17 && |TipoMoradia| == 12 && |AcessoAgua| == 11
    ensures |AcessoEsgoto| == 13 && |VulnerabilidadeIdade| == 21 && |InfraestruturaAdequada| == 23
    ensures |EscolaridadeBaixa| == 18 && |TrabalhoPrecario| == 26 && |Superlotacao| == 12 && |RecebeBolsa| == 20
    ensures Escolaridade[0] == 'e' && TipoMoradia[0] == 't' && Superlotacao[0] == 's'
    ensures PossuiDeficiencia[0] == 'p' && EscolaridadeBaixa[0] == 'e'
  {
  }

  /** The feature names are pairwise different, and the flag is not one of the
      fourteen. */
  lemma FeatureColumnsDistinct(f: Frame)
    ensures Distinct(BaseFeatures) && RecebeBolsa !in BaseFeatures
    ensures Distinct(FeatureColumns(f))
  {
    FeatureNames();
    assert RecebeBolsa !in BaseFeatures by {
      forall k | 0 <= k < |BaseFeatures| ensures BaseFeatures[k] != RecebeBolsa {
        assert |BaseFeatures[k]| != 20;
      }
    }
  }

  /** `X, y = preparar_dados_para_ml(df)`. A missing feature column raises
      first; then a missing tier column. Otherwise the matrix holds the table's
      cells for the feature columns (the flag included exactly when the table
      has it), and the target holds, row by row, the code of the tier label:
      0 to 3, or NaN where the cell holds no label. */
  function Prepare(f: Frame): (r: Result<Dataset, Error>)
    requires Valid(f)
    ensures r.Ok? <==> (forall c :: c in FeatureColumns(f) ==> Has(f, c)) && Has(f, Nivel)
    ensures r.Err? && (forall c :: c in FeatureColumns(f) ==> Has(f, c)) ==> r.error == MissingColumn(Nivel)
    ensures r.Err? && !Has(f, Nivel) ==> exists c :: c in FeatureColumns(f) + [Nivel] && r.error == MissingColumn(c) && !Has(f, c)
    ensures r.Ok? ==> Valid(r.value.x) && r.value.x.columns == FeatureColumns(f) && |r.value.x.rows| == |f.rows|
    ensures r.Ok? ==> (RecebeBolsa in r.value.x.columns <==> Has(f, RecebeBolsa))
    ensures r.Ok? ==> forall i, c :: 0 <= i < |f.rows| && c in FeatureColumns(f) ==> At(r.value.x, i, c) == At(f, i, c)
    ensures r.Ok? ==> |r.value.y| == |f.rows|
    ensures r.Ok? ==> forall i :: 0 <= i < |f.rows| ==>
      (r.value.y[i].Some? <==> exists t :: At(f, i, Nivel) == Some(Text(Label(t))))
    ensures r.Ok? ==> forall i, t :: 0 <= i < |f.rows| && At(f, i, Nivel) == Some(Text(Label(t))) ==> r.value.y[i] == Some(Int(Rank(t)))
  {
    FeatureColumnsDistinct(f);
    match Select(f, FeatureColumns(f))
    case Err(e) => Err(e)
    case Ok(x) =>
      if !Has(f, Nivel) then Err(MissingColumn(Nivel))
      else
        var y := seq(|f.rows|, i requires 0 <= i < |f.rows| => Target(At(f, i, Nivel)));
        TargetsOfLabels(f, y);
        Ok(Dataset(x, y))
  }

  lemma TargetsOfLabels(f: Frame, y: seq<Cell>)
    requires |y| == |f.rows| && forall i :: 0 <= i < |f.rows| ==> y[i] == Target(At(f, i, Nivel))
    ensures forall i :: 0 <= i < |f.rows| ==> (y[i].Some? <==> exists t :: At(f, i, Nivel) == Some(Text(Label(t))))
    ensures forall i, t :: 0 <= i < |f.rows| && At(f, i, Nivel) == Some(Text(Label(t))) ==> y[i] == Some(Int(Rank(t)))
  {
    forall i | 0 <= i < |f.rows| ensures y[i].Some? <==> exists t :: At(f, i, Nivel) == Some(Text(Label(t))) {
      if y[i].Some? {
        var t := FromRank(y[i].value.i).value;
        TargetOfLabel(t);
        assert At(f, i, Nivel) == Some(Text(Label(t)));
      }
    }
    forall i, t | 0 <= i < |f.rows| && At(f, i, Nivel) == Some(Text(Label(t))) ensures y[i] == Some(Int(Rank(t))) {
      TargetOfLabel(t);
    }
  }

  /** On a table the derivation produced, the target is the rank of each row's
      score tier, and NaN exactly where the score is NaN. */
  lemma PreparedFromDerived(f: Frame, bolsa: Option<Frame>, sqrt: real -> real)
    requires Valid(f) && (bolsa.Some? ==> Valid(bolsa.value))
    requires !Has(f, RendaPerCapita) ==> FiniteIncomes(f)
    requires !Has(f, Nivel)
    ensures Derive(f, bolsa, sqrt).Ok? && Prepare(Derive(f, bolsa, sqrt).value).Ok? ==>
      var g := Derive(f, bolsa, sqrt).value;
      forall i :: 0 <= i < |g.rows| ==>
        Prepare(g).value.y[i] == if Num(At(g, i, Score)).Some? then Some(Int(Rank(TierOf(Num(At(g, i, Score)).value)))) else None
  {
    if Derive(f, bolsa, sqrt).Ok? && Prepare(Derive(f, bolsa, sqrt).value).Ok? {
      var g := Derive(f, bolsa, sqrt).value;
      DeriveColumns(f, bolsa, sqrt);
      TargetsOfTiers(g);
    }
  }

  /** A table whose tiers are those of its scores has as targets the ranks of
      those tiers. */
  lemma TargetsOfTiers(g: Frame)
    requires Valid(g) && Prepare(g).Ok?
    requires forall i :: 0 <= i < |g.rows| ==> At(g, i, Nivel) == TierCell(At(g, i, Score))
    ensures forall i :: 0 <= i < |g.rows| ==>
      Prepare(g).value.y[i] == if Num(At(g, i, Score)).Some? then Some(Int(Rank(TierOf(Num(At(g, i, Score)).value)))) else None
  {
    var d := Prepare(g).value;
    forall i | 0 <= i < |g.rows|
      ensures d.y[i] == if Num(At(g, i, Score)).Some? then Some(Int(Rank(TierOf(Num(At(g, i, Score)).value)))) else None
    {
      TargetOfTier(At(g, i, Score));
      if Num(At(g, i, Score)).Some? {
        assert At(g, i, Nivel) == Some(Text(Label(TierOf(Num(At(g, i, Score)).value))));
      } else {
        assert At(g, i, Nivel) == None;
      }
    }
  }
}
