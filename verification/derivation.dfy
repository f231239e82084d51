/** `gerar_features_vulnerabilidade` as a pipeline of guarded steps. Each step
    adds one column unless it is present, keeps every other column, and makes
    its column satisfy a row-level definition; the pipeline as a whole keeps the
    input table and leaves every column it added defined. */
module Derivation {
  import opened Wrappers
  import opened Frames
  import opened Stats
  import opened Normalisation
  import opened Levels
  import opened Features

  /** One guarded step of the derivation. */
  datatype Step =
    | PerCapitaStep
    | FlagStep(c: string, src: string, test: real -> bool)
    | InfraStep
    | BolsaStep
    | ScoreStep
    | TierStep

  /** The column whose presence switches the step off. */
  function Output(s: Step): string {
    match s
    case PerCapitaStep => RendaPerCapita
    case FlagStep(c, _, _) => c
    case InfraStep => InfraestruturaAdequada
    case BolsaStep => RecebeBolsa
    case ScoreStep => Score
    case TierStep => Nivel
  }

  /** Existing columns the step may rewrite. */
  function Changes(s: Step): set<string> {
    if s.ScoreStep? then {RendaNorm} else {}
  }

  /** Columns the step may add. */
  function Adds(s: Step): set<string> {
    {Output(s)} + Changes(s)
  }

  /** Columns the step's definition reads, its own output included. */
  function Reads(s: Step, bolsa: Option<Frame>): set<string> {
    match s
    case PerCapitaStep => {RendaPerCapita, RendaFamiliar, QtdPessoas}
    case FlagStep(c, src, _) => {c, src}
    case InfraStep => {InfraestruturaAdequada, AcessoAgua, AcessoEsgoto}
    case BolsaStep => if bolsa.Some? then {RecebeBolsa, Nis} else {RecebeBolsa}
    case ScoreStep =>
      {Score, RendaNorm, RendaPerCapita, VulnerabilidadeIdade, InfraestruturaAdequada,
       EscolaridadeBaixa, TrabalhoPrecario, Superlotacao, PossuiDeficiencia}
    case TierStep => {Nivel, Score}
  }

  predicate WellFormed(s: Step) {
    s.FlagStep? ==> s.c != s.src
  }

  /** The row-level definition of the step's output column. */
  ghost predicate Defined(g: Frame, s: Step, bolsa: Option<Frame>, norm: seq<Cell> -> seq<Cell>) {
    match s
    case PerCapitaStep =>
      forall i :: 0 <= i < |g.rows| ==>
        At(g, i, RendaPerCapita) == PerCapitaCell(At(g, i, RendaFamiliar), At(g, i, QtdPessoas))
    case FlagStep(c, src, test) =>
      forall i :: 0 <= i < |g.rows| ==> At(g, i, c) == FlagCell(At(g, i, src), test)
    case InfraStep =>
      forall i :: 0 <= i < |g.rows| ==>
        At(g, i, InfraestruturaAdequada) == AndCell(At(g, i, AcessoAgua), At(g, i, AcessoEsgoto))
    case BolsaStep => BolsaFlagged(g, bolsa)
    case ScoreStep =>
      && Column(g, RendaNorm) == norm(Column(g, RendaPerCapita))
      && forall i :: 0 <= i < |g.rows| ==> At(g, i, Score) == RowScore(g, i)
    case TierStep =>
      forall i :: 0 <= i < |g.rows| ==> At(g, i, Nivel) == TierCell(At(g, i, Score))
  }

  /** The per-capita step divides by zero only where the quotient is 0 / 0. */
  ghost predicate Ready(f: Frame, s: Step) {
    s.PerCapitaStep? && !Has(f, RendaPerCapita) ==> FiniteIncomes(f)
  }

  function Apply(f: Frame, s: Step, bolsa: Option<Frame>, norm: seq<Cell> -> seq<Cell>): (r: Result<Frame, Error>)
    requires Valid(f) && LengthPreserving(norm) && (bolsa.Some? ==> Valid(bolsa.value))
    requires WellFormed(s) && Ready(f, s)
    ensures Has(f, Output(s)) ==> r == Ok(f)
    ensures r.Ok? ==> Valid(r.value) && Keeps(f, r.value, Changes(s)) && Has(r.value, Output(s))
    ensures r.Ok? ==> forall d :: Has(r.value, d) ==> Has(f, d) || d in Adds(s)
    ensures r.Ok? ==> forall d :: Has(f, d) ==> Has(r.value, d)
    ensures r.Ok? && !Has(f, Output(s)) ==> Defined(r.value, s, bolsa, norm)
    ensures r.Ok? && !Has(f, Output(s)) ==> forall d :: d in Reads(s, bolsa) ==> Has(r.value, d)
  {
    match s
    case PerCapitaStep => AddPerCapita(f)
    case FlagStep(c, src, test) => AddFlag(f, c, src, test)
    case InfraStep => AddInfra(f)
    case BolsaStep => AddBolsaFlag(f, bolsa)
    case ScoreStep => AddScore(f, norm)
    case TierStep => AddTier(f)
  }

  /** Only the first step may be the per-capita step, and then the incomes it
      divides are finite. */
  ghost predicate ReadyAll(f: Frame, steps: seq<Step>) {
    forall k :: 0 <= k < |steps| && steps[k].PerCapitaStep? ==> k == 0 && Ready(f, steps[k])
  }

  predicate AllWellFormed(steps: seq<Step>) {
    forall k :: 0 <= k < |steps| ==> WellFormed(steps[k])
  }

  predicate Scores(steps: seq<Step>) {
    exists k :: 0 <= k < |steps| && steps[k].ScoreStep?
  }

  /** Existing columns some step of the run may rewrite. */
  function ChangesAll(steps: seq<Step>): set<string> {
    if Scores(steps) then {RendaNorm} else {}
  }

  /** Run the steps in order, stopping at the first error. */
  function Run(f: Frame, steps: seq<Step>, bolsa: Option<Frame>, norm: seq<Cell> -> seq<Cell>): (r: Result<Frame, Error>)
    requires Valid(f) && LengthPreserving(norm) && (bolsa.Some? ==> Valid(bolsa.value))
    requires AllWellFormed(steps) && ReadyAll(f, steps)
    ensures r.Ok? ==> Valid(r.value) && Keeps(f, r.value, ChangesAll(steps))
    ensures r.Ok? ==> forall d :: Has(f, d) ==> Has(r.value, d)
    ensures r.Ok? ==> forall d :: Has(r.value, d) ==> Has(f, d) || exists k :: 0 <= k < |steps| && d in Adds(steps[k])
    ensures r.Ok? ==> forall k :: 0 <= k < |steps| ==> Has(r.value, Output(steps[k]))
    ensures r.Ok? ==> forall k :: 0 <= k < |steps| && Fresh(f, steps, k, bolsa) ==> Defined(r.value, steps[k], bolsa, norm)
    decreases |steps|
  {
    if |steps| == 0 then Ok(f)
    else
      var g :- Apply(f, steps[0], bolsa, norm);
      RestReady(f, g, steps);
      var h :- Run(g, steps[1..], bolsa, norm);
      RunStep(f, g, h, steps, bolsa, norm);
      RunDefined(f, g, h, steps, bolsa, norm);
      Ok(h)
  }

  /** How the first step and the rest of a run combine. */
  lemma RunStep(f: Frame, g: Frame, h: Frame, steps: seq<Step>, bolsa: Option<Frame>, norm: seq<Cell> -> seq<Cell>)
    requires |steps| > 0 && Keeps(f, g, Changes(steps[0])) && Keeps(g, h, ChangesAll(steps[1..]))
    requires forall d :: Has(g, d) ==> Has(f, d) || d in Adds(steps[0])
    requires forall d :: Has(h, d) ==> Has(g, d) || exists k :: 0 <= k < |steps[1..]| && d in Adds(steps[1..][k])
    requires Has(g, Output(steps[0])) && forall d :: Has(g, d) ==> Has(h, d)
    requires forall k :: 0 <= k < |steps[1..]| ==> Has(h, Output(steps[1..][k]))
    ensures Keeps(f, h, ChangesAll(steps))
    ensures forall d :: Has(h, d) ==> Has(f, d) || exists k :: 0 <= k < |steps| && d in Adds(steps[k])
    ensures forall k :: 0 <= k < |steps| ==> Has(h, Output(steps[k]))
  {
    if steps[0].ScoreStep? {
      assert Scores(steps);
    }
    if Scores(steps[1..]) {
      var k :| 0 <= k < |steps[1..]| && steps[1..][k].ScoreStep?;
      assert steps[k + 1].ScoreStep?;
    }
    KeepsChain(f, g, h, Changes(steps[0]), ChangesAll(steps[1..]), ChangesAll(steps));
    forall d | Has(h, d) && !Has(f, d)
      ensures exists k :: 0 <= k < |steps| && d in Adds(steps[k])
    {
      if !Has(g, d) {
        var k :| 0 <= k < |steps[1..]| && d in Adds(steps[1..][k]);
        assert d in Adds(steps[k + 1]);
      }
    }
    forall k | 0 <= k < |steps| ensures Has(h, Output(steps[k])) {
      if k > 0 {
        assert steps[k] == steps[1..][k - 1];
      }
    }
  }

  /** A definition survives a step that keeps the columns it reads. */
  lemma DefinedKept(a: Frame, b: Frame, s: Step, bolsa: Option<Frame>, norm: seq<Cell> -> seq<Cell>, except: set<string>)
    requires Keeps(a, b, except) && Reads(s, bolsa) !! except
    requires forall d :: d in Reads(s, bolsa) ==> Has(a, d)
    requires Defined(a, s, bolsa, norm)
    ensures Defined(b, s, bolsa, norm)
  {
    match s
    case ScoreStep =>
      ColumnKept(a, b, except, RendaNorm);
      ColumnKept(a, b, except, RendaPerCapita);
      forall i | 0 <= i < |b.rows| ensures At(b, i, Score) == RowScore(b, i) {
        assert At(b, i, Score) == At(a, i, Score);
        assert RowScore(b, i) == RowScore(a, i) by {
          assert At(b, i, RendaNorm) == At(a, i, RendaNorm);
          assert At(b, i, VulnerabilidadeIdade) == At(a, i, VulnerabilidadeIdade);
          assert At(b, i, InfraestruturaAdequada) == At(a, i, InfraestruturaAdequada);
          assert At(b, i, EscolaridadeBaixa) == At(a, i, EscolaridadeBaixa);
          assert At(b, i, TrabalhoPrecario) == At(a, i, TrabalhoPrecario);
          assert At(b, i, Superlotacao) == At(a, i, Superlotacao);
          assert At(b, i, PossuiDeficiencia) == At(a, i, PossuiDeficiencia);
        }
      }
    case BolsaStep =>
      if bolsa.Some? {
        forall i | 0 <= i < |b.rows|
          ensures At(b, i, RecebeBolsa) == At(a, i, RecebeBolsa) && At(b, i, Nis) == At(a, i, Nis)
        {
        }
      }
    case _ =>
  }

  /** Step `k` of a run starting from `f` writes its column and nothing
      disturbs it afterwards: the column is absent from `f`, no earlier step adds
      it, and no later step rewrites what its definition reads. */
  ghost predicate Fresh(f: Frame, steps: seq<Step>, k: int, bolsa: Option<Frame>)
    requires 0 <= k < |steps|
  {
    && !Has(f, Output(steps[k]))
    && (forall j :: 0 <= j < k ==> Output(steps[k]) !in Adds(steps[j]))
    && Reads(steps[k], bolsa) !! ChangesAll(steps[k + 1..])
  }

  /** Definedness after the first step and after the rest combine. */
  lemma RunDefined(f: Frame, g: Frame, h: Frame, steps: seq<Step>, bolsa: Option<Frame>, norm: seq<Cell> -> seq<Cell>)
    requires |steps| > 0 && Keeps(g, h, ChangesAll(steps[1..]))
    requires !Has(f, Output(steps[0])) ==>
      Defined(g, steps[0], bolsa, norm) && forall d :: d in Reads(steps[0], bolsa) ==> Has(g, d)
    requires forall d :: Has(g, d) ==> Has(f, d) || d in Adds(steps[0])
    requires forall k :: 0 <= k < |steps[1..]| && Fresh(g, steps[1..], k, bolsa) ==> Defined(h, steps[1..][k], bolsa, norm)
    ensures forall k :: 0 <= k < |steps| && Fresh(f, steps, k, bolsa) ==> Defined(h, steps[k], bolsa, norm)
  {
    forall k | 0 <= k < |steps| && Fresh(f, steps, k, bolsa) ensures Defined(h, steps[k], bolsa, norm) {
      if k == 0 {
        assert steps[1..] == steps[0 + 1..];
        DefinedKept(g, h, steps[0], bolsa, norm, ChangesAll(steps[1..]));
      } else {
        LaterAbsent(f, g, steps, k);
        assert Fresh(g, steps[1..], k - 1, bolsa);
      }
    }
  }

  /** The side conditions of step `k` carry over to step `k - 1` of the rest. */
  lemma LaterAbsent(f: Frame, g: Frame, steps: seq<Step>, k: nat)
    requires 0 < k < |steps| && !Has(f, Output(steps[k]))
    requires forall j :: 0 <= j < k ==> Output(steps[k]) !in Adds(steps[j])
    requires forall d :: Has(g, d) ==> Has(f, d) || d in Adds(steps[0])
    ensures !Has(g, Output(steps[1..][k - 1]))
    ensures forall j :: 0 <= j < k - 1 ==> Output(steps[1..][k - 1]) !in Adds(steps[1..][j])
    ensures steps[1..][k - 1 + 1..] == steps[k + 1..] && steps[1..][k - 1] == steps[k]
  {
    assert steps[1..][k - 1] == steps[k];
    assert Output(steps[k]) !in Adds(steps[0]);
    forall j | 0 <= j < k - 1 ensures Output(steps[1..][k - 1]) !in Adds(steps[1..][j]) {
      assert steps[1..][j] == steps[j + 1];
    }
  }

  lemma RestReady(f: Frame, g: Frame, steps: seq<Step>)
    requires |steps| > 0 && AllWellFormed(steps) && ReadyAll(f, steps)
    ensures AllWellFormed(steps[1..]) && ReadyAll(g, steps[1..])
  {
    forall k | 0 <= k < |steps[1..]| ensures WellFormed(steps[1..][k]) && !steps[1..][k].PerCapitaStep? {
      assert steps[1..][k] == steps[k + 1];
    }
  }

  // ---------------------------------------------------------------------------
  // The derivation of the preprocessing module

  /** The steps of `gerar_features_vulnerabilidade`, in the order it runs them. */
  const Pipeline: seq<Step> := [
    PerCapitaStep,
    FlagStep(VulnerabilidadeIdade, Idade, AgeAtRisk),
    InfraStep,
    FlagStep(EscolaridadeBaixa, Escolaridade, LowSchooling),
    FlagStep(TrabalhoPrecario, SituacaoTrabalho, PrecariousWork),
    FlagStep(Superlotacao, QtdPessoas, Overcrowded),
    BolsaStep,
    ScoreStep,
    TierStep
  ]

  /** Every column the derivation may add. */
  const DerivedColumns: set<string> :=
    {RendaPerCapita, VulnerabilidadeIdade, InfraestruturaAdequada, EscolaridadeBaixa, TrabalhoPrecario,
     Superlotacao, RecebeBolsa, RendaNorm, Score, Nivel}

  /** `gerar_features_vulnerabilidade(df_cadunico, df_bolsa_familia)`: a table
      that already has a tier comes back unchanged; otherwise each step runs in
      turn, and a missing input column or a type error stops the derivation. */
  function Derive(f: Frame, bolsa: Option<Frame>, sqrt: real -> real): (r: Result<Frame, Error>)
    requires Valid(f) && (bolsa.Some? ==> Valid(bolsa.value))
    requires !Has(f, RendaPerCapita) ==> FiniteIncomes(f)
    ensures Has(f, Nivel) ==> r == Ok(f)
    ensures r.Ok? ==> Valid(r.value) && Keeps(f, r.value, {RendaNorm})
    ensures r.Ok? ==> Has(r.value, Nivel) && forall d :: Has(r.value, d) ==> Has(f, d) || d in DerivedColumns
    ensures r.Ok? && !Has(f, Nivel) ==> forall k :: 0 <= k < |Pipeline| ==> Has(r.value, Output(Pipeline[k]))
    ensures r.Ok? && !Has(f, Nivel) ==> forall k :: 0 <= k < |Pipeline| && !Has(f, Output(Pipeline[k])) ==>
      Defined(r.value, Pipeline[k], bolsa, ZScoring(sqrt))
  {
    if Has(f, Nivel) then Ok(f)
    else
      PipelineFacts(f, bolsa);
      Run(f, Pipeline, bolsa, ZScoring(sqrt))
  }

  lemma PipelineFacts(f: Frame, bolsa: Option<Frame>)
    requires !Has(f, RendaPerCapita) ==> FiniteIncomes(f)
    ensures AllWellFormed(Pipeline) && ReadyAll(f, Pipeline)
    ensures ChangesAll(Pipeline) == {RendaNorm} && Output(Pipeline[8]) == Nivel
    ensures forall k :: 0 <= k < |Pipeline| ==> Adds(Pipeline[k]) <= DerivedColumns
    ensures forall k :: 0 <= k < |Pipeline| && !Has(f, Output(Pipeline[k])) ==> Fresh(f, Pipeline, k, bolsa)
  {
    assert Pipeline[7].ScoreStep?;
    forall k | 0 <= k < |Pipeline| && !Has(f, Output(Pipeline[k])) ensures Fresh(f, Pipeline, k, bolsa) {
      PipelineFresh(f, bolsa, k);
    }
  }

  /** The later steps a step is followed by rewrite only the normalised income,
      and only while the score step is still to come. */
  lemma PipelineTail(k: nat)
    requires k < |Pipeline|
    ensures ChangesAll(Pipeline[k + 1..]) == if k < 7 then {RendaNorm} else {}
  {
    if k < 7 {
      assert Pipeline[k + 1..][6 - k] == Pipeline[7];
    } else {
      assert k + 1 >= 8;
      assert forall j :: k + 1 <= j < |Pipeline| ==> !Pipeline[j].ScoreStep?;
    }
  }

  lemma PipelineFresh(f: Frame, bolsa: Option<Frame>, k: nat)
    requires k < |Pipeline| && !Has(f, Output(Pipeline[k]))
    ensures Fresh(f, Pipeline, k, bolsa)
  {
    PipelineTail(k);
    NamesDistinct();
  }

  /** Column by column, what the derivation writes into a table without a tier:
      each column it had to add follows its row-level definition, and the
      normalised income is the batch z-score of the per-capita income. */
  lemma DeriveColumns(f: Frame, bolsa: Option<Frame>, sqrt: real -> real)
    requires Valid(f) && (bolsa.Some? ==> Valid(bolsa.value))
    requires !Has(f, RendaPerCapita) ==> FiniteIncomes(f)
    requires !Has(f, Nivel) && Derive(f, bolsa, sqrt).Ok?
    ensures var g := Derive(f, bolsa, sqrt).value;
      !Has(f, RendaPerCapita) ==> forall i :: 0 <= i < |g.rows| ==>
        At(g, i, RendaPerCapita) == PerCapitaCell(At(g, i, RendaFamiliar), At(g, i, QtdPessoas))
    ensures var g := Derive(f, bolsa, sqrt).value;
      !Has(f, VulnerabilidadeIdade) ==> forall i :: 0 <= i < |g.rows| ==>
        At(g, i, VulnerabilidadeIdade) == FlagCell(At(g, i, Idade), AgeAtRisk)
    ensures var g := Derive(f, bolsa, sqrt).value;
      !Has(f, InfraestruturaAdequada) ==> forall i :: 0 <= i < |g.rows| ==>
        At(g, i, InfraestruturaAdequada) == AndCell(At(g, i, AcessoAgua), At(g, i, AcessoEsgoto))
    ensures var g := Derive(f, bolsa, sqrt).value;
      !Has(f, EscolaridadeBaixa) ==> forall i :: 0 <= i < |g.rows| ==>
        At(g, i, EscolaridadeBaixa) == FlagCell(At(g, i, Escolaridade), LowSchooling)
    ensures var g := Derive(f, bolsa, sqrt).value;
      !Has(f, TrabalhoPrecario) ==> forall i :: 0 <= i < |g.rows| ==>
        At(g, i, TrabalhoPrecario) == FlagCell(At(g, i, SituacaoTrabalho), PrecariousWork)
    ensures var g := Derive(f, bolsa, sqrt).value;
      !Has(f, Superlotacao) ==> forall i :: 0 <= i < |g.rows| ==>
        At(g, i, Superlotacao) == FlagCell(At(g, i, QtdPessoas), Overcrowded)
    ensures var g := Derive(f, bolsa, sqrt).value;
      !Has(f, RecebeBolsa) ==> BolsaFlagged(g, bolsa)
    ensures var g := Derive(f, bolsa, sqrt).value;
      !Has(f, Score) ==> Column(g, RendaNorm) == ZScores(Column(g, RendaPerCapita), sqrt)
    ensures var g := Derive(f, bolsa, sqrt).value;
      !Has(f, Score) ==> forall i :: 0 <= i < |g.rows| ==> At(g, i, Score) == RowScore(g, i)
    ensures var g := Derive(f, bolsa, sqrt).value;
      forall i :: 0 <= i < |g.rows| ==> At(g, i, Nivel) == TierCell(At(g, i, Score))
  {
    var g := Derive(f, bolsa, sqrt).value;
    FlagColumns(f, g, bolsa, ZScoring(sqrt));
    LaterColumns(f, g, bolsa, sqrt);
  }

  /** Pipeline definitions 0 to 5 spelled out. */
  lemma FlagColumns(f: Frame, g: Frame, bolsa: Option<Frame>, norm: seq<Cell> -> seq<Cell>)
    requires forall k :: 0 <= k < |Pipeline| && !Has(f, Output(Pipeline[k])) ==> Defined(g, Pipeline[k], bolsa, norm)
    ensures !Has(f, RendaPerCapita) ==> forall i :: 0 <= i < |g.rows| ==>
      At(g, i, RendaPerCapita) == PerCapitaCell(At(g, i, RendaFamiliar), At(g, i, QtdPessoas))
    ensures !Has(f, VulnerabilidadeIdade) ==> forall i :: 0 <= i < |g.rows| ==>
      At(g, i, VulnerabilidadeIdade) == FlagCell(At(g, i, Idade), AgeAtRisk)
    ensures !Has(f, InfraestruturaAdequada) ==> forall i :: 0 <= i < |g.rows| ==>
      At(g, i, InfraestruturaAdequada) == AndCell(At(g, i, AcessoAgua), At(g, i, AcessoEsgoto))
    ensures !Has(f, EscolaridadeBaixa) ==> forall i :: 0 <= i < |g.rows| ==>
      At(g, i, EscolaridadeBaixa) == FlagCell(At(g, i, Escolaridade), LowSchooling)
    ensures !Has(f, TrabalhoPrecario) ==> forall i :: 0 <= i < |g.rows| ==>
      At(g, i, TrabalhoPrecario) == FlagCell(At(g, i, SituacaoTrabalho), PrecariousWork)
    ensures !Has(f, Superlotacao) ==> forall i :: 0 <= i < |g.rows| ==>
      At(g, i, Superlotacao) == FlagCell(At(g, i, QtdPessoas), Overcrowded)
  {
    assert Output(Pipeline[0]) == RendaPerCapita && Output(Pipeline[1]) == VulnerabilidadeIdade;
    assert Output(Pipeline[2]) == InfraestruturaAdequada && Output(Pipeline[3]) == EscolaridadeBaixa;
    assert Output(Pipeline[4]) == TrabalhoPrecario && Output(Pipeline[5]) == Superlotacao;
  }

  /** Pipeline definitions 6 to 8 spelled out. */
  lemma LaterColumns(f: Frame, g: Frame, bolsa: Option<Frame>, sqrt: real -> real)
    requires !Has(f, Nivel)
    requires forall k :: 0 <= k < |Pipeline| && !Has(f, Output(Pipeline[k])) ==> Defined(g, Pipeline[k], bolsa, ZScoring(sqrt))
    ensures !Has(f, RecebeBolsa) ==> BolsaFlagged(g, bolsa)
    ensures !Has(f, Score) ==> Column(g, RendaNorm) == ZScores(Column(g, RendaPerCapita), sqrt)
    ensures !Has(f, Score) ==> forall i :: 0 <= i < |g.rows| ==> At(g, i, Score) == RowScore(g, i)
    ensures forall i :: 0 <= i < |g.rows| ==> At(g, i, Nivel) == TierCell(At(g, i, Score))
  {
    assert Output(Pipeline[6]) == RecebeBolsa && Output(Pipeline[7]) == Score && Output(Pipeline[8]) == Nivel;
  }

  /** Deriving again changes nothing: the result already carries its tier. */
  lemma DeriveIdempotent(f: Frame, bolsa: Option<Frame>, bolsa': Option<Frame>, sqrt: real -> real)
    requires Valid(f) && (bolsa.Some? ==> Valid(bolsa.value)) && (bolsa'.Some? ==> Valid(bolsa'.value))
    requires !Has(f, RendaPerCapita) ==> FiniteIncomes(f)
    requires Derive(f, bolsa, sqrt).Ok?
    ensures var g := Derive(f, bolsa, sqrt).value;
      (!Has(g, RendaPerCapita) ==> FiniteIncomes(g)) && Derive(g, bolsa', sqrt) == Ok(g)
  {
    var g := Derive(f, bolsa, sqrt).value;
    if !Has(f, Nivel) {
      assert Output(Pipeline[0]) == RendaPerCapita;
    }
  }
}
