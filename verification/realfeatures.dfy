/** `AdaptadorDadosReais.gerar_features_vulnerabilidade`: the derivation of the
    preprocessing module without its guards and without the Bolsa Familia
    step. Every column is assigned whether or not the table already has it, so
    each derived column follows its row-level definition unconditionally. */
module RealFeatures {
  import opened Wrappers
  import opened Frames
  import opened Normalisation
  import opened Features
  import opened Derivation

  // ---------------------------------------------------------------------------
  // One unguarded step

  /** The columns a step reads as numbers. */
  function NumNeeds(s: Step): set<string> {
    match s
    case PerCapitaStep => {RendaFamiliar, QtdPessoas}
    case FlagStep(_, src, _) => {src}
    case InfraStep => {}
    case BolsaStep => {}
    case ScoreStep =>
      {RendaPerCapita, VulnerabilidadeIdade, InfraestruturaAdequada, EscolaridadeBaixa,
       TrabalhoPrecario, Superlotacao, PossuiDeficiencia}
    case TierStep => {Score}
  }

  /** The columns a step combines with `&`, which needs integer cells. */
  function IntNeeds(s: Step): set<string> {
    if s.InfraStep? then {AcessoAgua, AcessoEsgoto} else {}
  }

  /** The step runs on `f` without a `KeyError` or a `TypeError`. */
  predicate Accepts(f: Frame, s: Step) {
    && (forall d :: d in NumNeeds(s) ==> Has(f, d) && NumericColumn(f, d))
    && (forall d :: d in IntNeeds(s) ==> Has(f, d) && IntColumn(f, d))
  }

  lemma ScoreNeeds()
    ensures forall c :: c in ScoreInputs <==> c in NumNeeds(ScoreStep)
  {
  }

  /** The score step accepts a table exactly when its inputs are there as numbers. */
  lemma ScoreAccepts(f: Frame)
    ensures Accepts(f, ScoreStep) <==> Require(f, ScoreInputs, ScoreInputs).Ok?
    ensures Accepts(f, ScoreStep) ==> HasScoreInputs(f)
  {
    ScoreNeeds();
    if Accepts(f, ScoreStep) {
      ScoreInputsPresent(f);
    }
  }

  /** `df[c] = <definition>` for one step, overwriting a column already there.
      The normalised income and the score are both written by the score step. */
  function Force(f: Frame, s: Step, norm: seq<Cell> -> seq<Cell>): Result<Frame, Error>
    requires Valid(f) && LengthPreserving(norm) && WellFormed(s) && !s.BolsaStep?
    requires s.PerCapitaStep? ==> FiniteIncomes(f)
  {
    match s
    case PerCapitaStep => ForcePerCapita(f)
    case FlagStep(c, src, test) => ForceFlag(f, c, src, test)
    case InfraStep => ForceInfra(f)
    case ScoreStep => ForceScoreStep(f, norm)
    case TierStep => ForceTier(f)
  }

  /** Whatever the table holds, a step that runs leaves its columns defined,
      keeps every other column, and fails exactly when an input is missing or
      of the wrong type. */
  lemma ForceMeaning(f: Frame, s: Step, norm: seq<Cell> -> seq<Cell>)
    requires Valid(f) && LengthPreserving(norm) && WellFormed(s) && !s.BolsaStep?
    requires s.PerCapitaStep? ==> FiniteIncomes(f)
    ensures Meaning(f, s, norm, Force(f, s, norm))
  {
    match s
    case PerCapitaStep => PerCapitaMeaning(f, norm);
    case FlagStep(c, src, test) => FlagMeaning(f, c, src, test, norm);
    case InfraStep => InfraMeaning(f, norm);
    case ScoreStep => ScoreMeaning(f, norm);
    case TierStep => TierMeaning(f, norm);
  }

  /** What `Force` promises about one step and its outcome `r`. */
  ghost predicate Meaning(f: Frame, s: Step, norm: seq<Cell> -> seq<Cell>, r: Result<Frame, Error>) {
    && (r.Ok? <==> Accepts(f, s))
    && (r.Ok? ==> Valid(r.value) && Keeps(f, r.value, Adds(s)))
    && (r.Ok? ==> forall d :: Has(r.value, d) <==> Has(f, d) || d in Adds(s))
    && (r.Ok? ==> Defined(r.value, s, None, norm))
    && (r.Ok? ==> forall d :: d in Reads(s, None) ==> Has(r.value, d))
    && (r.Ok? && !s.TierStep? ==> NumericColumn(r.value, Output(s)))
  }

  lemma PerCapitaMeaning(f: Frame, norm: seq<Cell> -> seq<Cell>)
    requires Valid(f) && FiniteIncomes(f)
    ensures Meaning(f, PerCapitaStep, norm, ForcePerCapita(f))
  {
  }

  lemma FlagMeaning(f: Frame, c: string, src: string, test: real -> bool, norm: seq<Cell> -> seq<Cell>)
    requires Valid(f) && c != src
    ensures Meaning(f, FlagStep(c, src, test), norm, ForceFlag(f, c, src, test))
  {
  }

  lemma InfraMeaning(f: Frame, norm: seq<Cell> -> seq<Cell>)
    requires Valid(f)
    ensures Meaning(f, InfraStep, norm, ForceInfra(f))
  {
  }

  lemma ScoreMeaning(f: Frame, norm: seq<Cell> -> seq<Cell>)
    requires Valid(f) && LengthPreserving(norm)
    ensures Meaning(f, ScoreStep, norm, ForceScoreStep(f, norm))
  {
  }

  lemma ScoreAdds()
    ensures Adds(ScoreStep) == {RendaNorm, Score}
  {
  }

  lemma ScoreReadsPresent(g: Frame)
    requires HasScoreInputs(g) && Has(g, RendaNorm) && Has(g, Score)
    ensures forall d :: d in Reads(ScoreStep, None) ==> Has(g, d)
  {
  }

  lemma TierMeaning(f: Frame, norm: seq<Cell> -> seq<Cell>)
    requires Valid(f)
    ensures Meaning(f, TierStep, norm, ForceTier(f))
  {
  }

  /** On a table without the step's column, the unguarded step and the guarded
      one of the preprocessing module give the same result, error or table. */
  lemma ForceAgrees(f: Frame, s: Step, norm: seq<Cell> -> seq<Cell>)
    requires Valid(f) && LengthPreserving(norm) && WellFormed(s) && !s.BolsaStep?
    requires s.PerCapitaStep? ==> FiniteIncomes(f)
    requires !Has(f, Output(s))
    ensures Force(f, s, norm) == Apply(f, s, None, norm)
  {
    match s
    case PerCapitaStep =>
      var v := seq(|f.rows|, i requires 0 <= i < |f.rows| => PerCapitaCell(At(f, i, RendaFamiliar), At(f, i, QtdPessoas)));
      assert ForcePerCapita(f).Ok? ==> ForcePerCapita(f).value == Append(f, RendaPerCapita, v);
    case FlagStep(c, src, test) =>
      var v := seq(|f.rows|, i requires 0 <= i < |f.rows| => FlagCell(At(f, i, src), test));
      assert ForceFlag(f, c, src, test).Ok? ==> ForceFlag(f, c, src, test).value == Append(f, c, v);
    case InfraStep =>
      var v := seq(|f.rows|, i requires 0 <= i < |f.rows| => AndCell(At(f, i, AcessoAgua), At(f, i, AcessoEsgoto)));
      assert ForceInfra(f).Ok? ==> ForceInfra(f).value == Append(f, InfraestruturaAdequada, v);
    case ScoreStep =>
      ScoreAgrees(f, norm);
    case TierStep =>
      var v := seq(|f.rows|, i requires 0 <= i < |f.rows| => Levels.TierCell(At(f, i, Score)));
      assert ForceTier(f).Ok? ==> ForceTier(f).value == Append(f, Nivel, v);
  }

  lemma ScoreAgrees(f: Frame, norm: seq<Cell> -> seq<Cell>)
    requires Valid(f) && LengthPreserving(norm) && !Has(f, Score)
    ensures ForceScoreStep(f, norm) == AddScore(f, norm)
  {
    ScoreAccepts(f);
    if Accepts(f, ScoreStep) {
      NamesDistinct();
      var g := Normalise(f, norm);
      assert g == Normalised(f, norm);
      var v := seq(|g.rows|, i requires 0 <= i < |g.rows| => RowScore(g, i));
      assert Rescore(g) == Append(g, Score, v);
      assert WithRowScores(g) == Append(g, Score, v);
    }
  }

  /** `renda_per_capita = renda_familiar / qtd_pessoas_familia`. */
  function ForcePerCapita(f: Frame): (r: Result<Frame, Error>)
    requires Valid(f) && FiniteIncomes(f)
    ensures r.Ok? <==> Has(f, RendaFamiliar) && Has(f, QtdPessoas) && NumericColumn(f, RendaFamiliar) && NumericColumn(f, QtdPessoas)
    ensures r.Ok? ==> Valid(r.value) && Keeps(f, r.value, {RendaPerCapita})
    ensures r.Ok? ==> forall d :: Has(r.value, d) <==> Has(f, d) || d == RendaPerCapita
    ensures r.Ok? ==> forall i :: 0 <= i < |r.value.rows| ==>
      At(r.value, i, RendaPerCapita) == PerCapitaCell(At(r.value, i, RendaFamiliar), At(r.value, i, QtdPessoas))
    ensures r.Ok? ==> NumericColumn(r.value, RendaPerCapita)
  {
    var _ :- Require(f, [RendaFamiliar, QtdPessoas], [RendaFamiliar, QtdPessoas]);
    NamesDistinct();
    Ok(SetColumn(f, RendaPerCapita, seq(|f.rows|, i requires 0 <= i < |f.rows| => PerCapitaCell(At(f, i, RendaFamiliar), At(f, i, QtdPessoas)))))
  }

  /** `c = (src <test>).astype(int)`. */
  function ForceFlag(f: Frame, c: string, src: string, test: real -> bool): (r: Result<Frame, Error>)
    requires Valid(f) && c != src
    ensures r.Ok? <==> Has(f, src) && NumericColumn(f, src)
    ensures r.Ok? ==> Valid(r.value) && Keeps(f, r.value, {c})
    ensures r.Ok? ==> forall d :: Has(r.value, d) <==> Has(f, d) || d == c
    ensures r.Ok? ==> forall i :: 0 <= i < |r.value.rows| ==> At(r.value, i, c) == FlagCell(At(r.value, i, src), test)
    ensures r.Ok? ==> NumericColumn(r.value, c)
  {
    var _ :- Require(f, [src], [src]);
    Ok(SetColumn(f, c, seq(|f.rows|, i requires 0 <= i < |f.rows| => FlagCell(At(f, i, src), test))))
  }

  /** `infraestrutura_adequada = (acesso_agua & acesso_esgoto).astype(int)`. */
  function ForceInfra(f: Frame): (r: Result<Frame, Error>)
    requires Valid(f)
    ensures r.Ok? <==> Has(f, AcessoAgua) && Has(f, AcessoEsgoto) && IntColumn(f, AcessoAgua) && IntColumn(f, AcessoEsgoto)
    ensures r.Ok? ==> Valid(r.value) && Keeps(f, r.value, {InfraestruturaAdequada})
    ensures r.Ok? ==> forall d :: Has(r.value, d) <==> Has(f, d) || d == InfraestruturaAdequada
    ensures r.Ok? ==> forall i :: 0 <= i < |r.value.rows| ==>
      At(r.value, i, InfraestruturaAdequada) == AndCell(At(r.value, i, AcessoAgua), At(r.value, i, AcessoEsgoto))
    ensures r.Ok? ==> NumericColumn(r.value, InfraestruturaAdequada)
  {
    var _ :- Require(f, [AcessoAgua, AcessoEsgoto], []);
    if !IntColumn(f, AcessoAgua) then Err(TypeMismatch(AcessoAgua))
    else if !IntColumn(f, AcessoEsgoto) then Err(TypeMismatch(AcessoEsgoto))
    else
      NamesDistinct();
      Ok(SetColumn(f, InfraestruturaAdequada, seq(|f.rows|, i requires 0 <= i < |f.rows| => AndCell(At(f, i, AcessoAgua), At(f, i, AcessoEsgoto)))))
  }

  /** The normalised income and the weighted score. */
  function ForceScoreStep(f: Frame, norm: seq<Cell> -> seq<Cell>): (r: Result<Frame, Error>)
    requires Valid(f) && LengthPreserving(norm)
    ensures r.Ok? <==> Accepts(f, ScoreStep)
    ensures r.Ok? ==> Valid(r.value) && Keeps(f, r.value, Adds(ScoreStep)) && HasScoreInputs(r.value)
    ensures r.Ok? ==> forall d :: Has(r.value, d) <==> Has(f, d) || d in Adds(ScoreStep)
    ensures r.Ok? ==> forall d :: d in Reads(ScoreStep, None) ==> Has(r.value, d)
    ensures r.Ok? ==> Column(r.value, RendaNorm) == norm(Column(r.value, RendaPerCapita))
    ensures r.Ok? ==> forall i :: 0 <= i < |r.value.rows| ==> At(r.value, i, Score) == RowScore(r.value, i)
    ensures r.Ok? ==> NumericColumn(r.value, Score)
  {
    ScoreAccepts(f);
    var _ :- Require(f, ScoreInputs, ScoreInputs);
    var h := ForceScore(f, norm);
    ScoreAdds();
    ScoreReadsPresent(h);
    Ok(h)
  }

  /** `nivel_vulnerabilidade = pd.cut(score_vulnerabilidade, ...)`. */
  function ForceTier(f: Frame): (r: Result<Frame, Error>)
    requires Valid(f)
    ensures r.Ok? <==> Has(f, Score) && NumericColumn(f, Score)
    ensures r.Ok? ==> Valid(r.value) && Keeps(f, r.value, {Nivel})
    ensures r.Ok? ==> forall d :: Has(r.value, d) <==> Has(f, d) || d == Nivel
    ensures r.Ok? ==> forall i :: 0 <= i < |r.value.rows| ==> At(r.value, i, Nivel) == Levels.TierCell(At(r.value, i, Score))
  {
    var _ :- Require(f, [Score], [Score]);
    NamesDistinct();
    Ok(SetColumn(f, Nivel, seq(|f.rows|, i requires 0 <= i < |f.rows| => Levels.TierCell(At(f, i, Score)))))
  }

  /** The normalised income and then the score, both overwritten when present. */
  function ForceScore(f: Frame, norm: seq<Cell> -> seq<Cell>): (h: Frame)
    requires Valid(f) && LengthPreserving(norm) && HasScoreInputs(f)
    ensures Valid(h) && Keeps(f, h, {RendaNorm, Score}) && HasScoreInputs(h)
    ensures forall d :: Has(h, d) <==> Has(f, d) || d == RendaNorm || d == Score
    ensures Column(h, RendaNorm) == norm(Column(h, RendaPerCapita))
    ensures forall i :: 0 <= i < |h.rows| ==> At(h, i, Score) == RowScore(h, i)
    ensures forall i :: 0 <= i < |h.rows| ==> IsNumeric(At(h, i, Score))
  {
    var g := Normalise(f, norm);
    var h := Rescore(g);
    KeepsTrans(f, g, h, {RendaNorm}, {Score});
    h
  }

  /** `score_vulnerabilidade` from the weighted inputs, overwriting or appending. */
  function Rescore(g: Frame): (h: Frame)
    requires Valid(g) && HasScoreInputs(g) && Has(g, RendaNorm)
    ensures Valid(h) && Keeps(g, h, {Score}) && HasScoreInputs(h)
    ensures forall d :: Has(h, d) <==> Has(g, d) || d == Score
    ensures Column(h, RendaNorm) == Column(g, RendaNorm) && Column(h, RendaPerCapita) == Column(g, RendaPerCapita)
    ensures forall i :: 0 <= i < |h.rows| ==> At(h, i, Score) == RowScore(h, i)
    ensures forall i :: 0 <= i < |h.rows| ==> IsNumeric(At(h, i, Score))
  {
    NamesDistinct();
    var h := SetColumn(g, Score, seq(|g.rows|, i requires 0 <= i < |g.rows| => RowScore(g, i)));
    ScoreKept(g, h);
    ColumnKept(g, h, {Score}, RendaPerCapita);
    ColumnKept(g, h, {Score}, RendaNorm);
    h
  }

  /** `renda_per_capita_norm = norm(renda_per_capita)`, overwriting or appending. */
  function Normalise(f: Frame, norm: seq<Cell> -> seq<Cell>): (g: Frame)
    requires Valid(f) && LengthPreserving(norm) && HasScoreInputs(f)
    ensures Valid(g) && Keeps(f, g, {RendaNorm}) && HasScoreInputs(g) && Has(g, RendaNorm)
    ensures forall d :: Has(g, d) <==> Has(f, d) || d == RendaNorm
    ensures Column(g, RendaNorm) == norm(Column(g, RendaPerCapita))
  {
    NamesDistinct();
    var g := SetColumn(f, RendaNorm, norm(Column(f, RendaPerCapita)));
    ColumnKept(f, g, {RendaNorm}, RendaPerCapita);
    g
  }

  // ---------------------------------------------------------------------------
  // A run of unguarded steps

  /** Every column some step of the run writes. */
  function AddsAll(steps: seq<Step>): set<string>
    decreases |steps|
  {
    if |steps| == 0 then {} else Adds(steps[0]) + AddsAll(steps[1..])
  }

  /** The steps an unguarded run may hold: no Bolsa Familia step, flags that
      do not read their own column, and a per-capita step only first, on
      finite incomes. */
  ghost predicate Plan(f: Frame, steps: seq<Step>) {
    forall k :: 0 <= k < |steps| ==>
      && WellFormed(steps[k]) && !steps[k].BolsaStep?
      && (steps[k].PerCapitaStep? ==> k == 0 && FiniteIncomes(f))
  }

  /** No later step rewrites a column that step `k` reads. */
  predicate Undisturbed(steps: seq<Step>, k: int)
    requires 0 <= k < |steps|
  {
    Reads(steps[k], None) !! AddsAll(steps[k + 1..])
  }

  /** The steps in order, each on the table the previous one left, stopping
      at the first error. */
  function RunForced(f: Frame, steps: seq<Step>, norm: seq<Cell> -> seq<Cell>): (r: Result<Frame, Error>)
    requires Valid(f) && LengthPreserving(norm) && Plan(f, steps)
    ensures r.Ok? ==> Valid(r.value) && Keeps(f, r.value, AddsAll(steps))
    ensures r.Ok? ==> forall d :: Has(r.value, d) <==> Has(f, d) || d in AddsAll(steps)
    ensures r.Ok? ==> forall k :: 0 <= k < |steps| && Undisturbed(steps, k) ==> Defined(r.value, steps[k], None, norm)
    decreases |steps|
  {
    if |steps| == 0 then Ok(f)
    else
      ForceMeaning(f, steps[0], norm);
      var g :- Force(f, steps[0], norm);
      PlanRest(f, g, steps);
      var h :- RunForced(g, steps[1..], norm);
      KeepsTrans(f, g, h, Adds(steps[0]), AddsAll(steps[1..]));
      ForcedDefined(g, h, steps, norm);
      Ok(h)
  }

  lemma PlanRest(f: Frame, g: Frame, steps: seq<Step>)
    requires |steps| > 0 && Plan(f, steps)
    ensures Plan(g, steps[1..])
  {
    forall k | 0 <= k < |steps[1..]|
      ensures WellFormed(steps[1..][k]) && !steps[1..][k].BolsaStep? && !steps[1..][k].PerCapitaStep?
    {
      assert steps[1..][k] == steps[k + 1];
    }
  }

  /** Definitions after the first step and after the rest combine. */
  lemma ForcedDefined(g: Frame, h: Frame, steps: seq<Step>, norm: seq<Cell> -> seq<Cell>)
    requires |steps| > 0 && Keeps(g, h, AddsAll(steps[1..]))
    requires Defined(g, steps[0], None, norm) && forall d :: d in Reads(steps[0], None) ==> Has(g, d)
    requires forall k :: 0 <= k < |steps[1..]| && Undisturbed(steps[1..], k) ==> Defined(h, steps[1..][k], None, norm)
    ensures forall k :: 0 <= k < |steps| && Undisturbed(steps, k) ==> Defined(h, steps[k], None, norm)
  {
    forall k | 0 <= k < |steps| && Undisturbed(steps, k) ensures Defined(h, steps[k], None, norm) {
      if k == 0 {
        assert steps[0 + 1..] == steps[1..];
        DefinedKept(g, h, steps[0], None, norm, AddsAll(steps[1..]));
      } else {
        assert steps[1..][k - 1] == steps[k] && steps[1..][k - 1 + 1..] == steps[k + 1..];
        assert Undisturbed(steps[1..], k - 1);
      }
    }
  }

  // ---------------------------------------------------------------------------
  // When a run goes through

  /** The columns a step leaves numeric: its output, except the tier, whose
      cells are labels. */
  function NumericAdds(s: Step): set<string> {
    if s.TierStep? then {} else {Output(s)}
  }

  /** The run needs only what it is given: the columns in `num` are known to
      be numeric and those in `ints` integer, each step finds its inputs among
      them, and what a step writes replaces what was known. */
  ghost predicate Feasible(num: set<string>, ints: set<string>, steps: seq<Step>)
    decreases |steps|
  {
    |steps| > 0 ==>
      && NumNeeds(steps[0]) <= num && IntNeeds(steps[0]) <= ints
      && Feasible(num - Adds(steps[0]) + NumericAdds(steps[0]), ints - Adds(steps[0]), steps[1..])
  }

  /** A feasible run on a table that has what it promises goes through. */
  lemma {:induction false} FeasibleRuns(f: Frame, steps: seq<Step>, norm: seq<Cell> -> seq<Cell>, num: set<string>, ints: set<string>)
    requires Valid(f) && LengthPreserving(norm) && Plan(f, steps)
    requires forall d :: d in num ==> Has(f, d) && NumericColumn(f, d)
    requires forall d :: d in ints ==> Has(f, d) && IntColumn(f, d)
    requires Feasible(num, ints, steps)
    ensures RunForced(f, steps, norm).Ok?
    decreases |steps|
  {
    if |steps| > 0 {
      var s := steps[0];
      ForceMeaning(f, s, norm);
      var r := Force(f, s, norm);
      assert r.Ok?;
      var g := r.value;
      PlanRest(f, g, steps);
      var num', ints' := num - Adds(s) + NumericAdds(s), ints - Adds(s);
      forall d | d in num' ensures Has(g, d) && NumericColumn(g, d) {
        if d !in NumericAdds(s) {
          assert forall i :: 0 <= i < |f.rows| ==> At(g, i, d) == At(f, i, d);
        }
      }
      forall d | d in ints' ensures Has(g, d) && IntColumn(g, d) {
        assert forall i :: 0 <= i < |f.rows| ==> At(g, i, d) == At(f, i, d);
      }
      FeasibleRuns(g, steps[1..], norm, num', ints');
    }
  }

  /** Every column a step needs and no step writes is there, numeric (and
      integer where it is combined with `&`). */
  ghost predicate Supplied(f: Frame, steps: seq<Step>) {
    SuppliedNumbers(f, steps) && SuppliedIntegers(f, steps)
  }

  ghost predicate SuppliedNumbers(f: Frame, steps: seq<Step>) {
    NumbersIn(f, NumNeedsAll(steps) - AddsAll(steps))
  }

  ghost predicate SuppliedIntegers(f: Frame, steps: seq<Step>) {
    IntegersIn(f, IntNeedsAll(steps) - AddsAll(steps))
  }

  /** Every column some step of the run reads as a number. */
  function NumNeedsAll(steps: seq<Step>): set<string>
    decreases |steps|
  {
    if |steps| == 0 then {} else NumNeeds(steps[0]) + NumNeedsAll(steps[1..])
  }

  /** Every column some step of the run combines with `&`. */
  function IntNeedsAll(steps: seq<Step>): set<string>
    decreases |steps|
  {
    if |steps| == 0 then {} else IntNeeds(steps[0]) + IntNeedsAll(steps[1..])
  }

  /** Every column of `cols` is present with numbers only. */
  predicate NumbersIn(f: Frame, cols: set<string>) {
    forall d :: d in cols ==> Has(f, d) && NumericColumn(f, d)
  }

  /** Every column of `cols` is present with integers only. */
  predicate IntegersIn(f: Frame, cols: set<string>) {
    forall d :: d in cols ==> Has(f, d) && IntColumn(f, d)
  }

  /** What each step reads is among what the run reads. */
  lemma {:induction false} NeedsAllHold(steps: seq<Step>, k: int)
    requires 0 <= k < |steps|
    ensures NumNeeds(steps[k]) <= NumNeedsAll(steps) && IntNeeds(steps[k]) <= IntNeedsAll(steps)
    decreases k
  {
    if k > 0 {
      NeedsAllHold(steps[1..], k - 1);
      assert steps[1..][k - 1] == steps[k];
    }
  }

  /** A run that goes through found every column it needs and does not write
      itself. */
  lemma {:induction false} RunNeeds(f: Frame, steps: seq<Step>, norm: seq<Cell> -> seq<Cell>)
    requires Valid(f) && LengthPreserving(norm) && Plan(f, steps)
    ensures RunForced(f, steps, norm).Ok? ==> Supplied(f, steps)
    decreases |steps|
  {
    if |steps| > 0 && RunForced(f, steps, norm).Ok? {
      ForceMeaning(f, steps[0], norm);
      var g := Force(f, steps[0], norm).value;
      PlanRest(f, g, steps);
      RunNeeds(g, steps[1..], norm);
      SuppliedBefore(f, g, steps);
    }
  }

  /** What the rest of a run is supplied with, and the first step did not
      write, was there before the first step. */
  lemma SuppliedBefore(f: Frame, g: Frame, steps: seq<Step>)
    requires |steps| > 0 && Accepts(f, steps[0]) && Keeps(f, g, Adds(steps[0]))
    requires forall d :: Has(g, d) <==> Has(f, d) || d in Adds(steps[0])
    requires Supplied(g, steps[1..])
    ensures Supplied(f, steps)
  {
    NumbersBefore(f, g, steps);
    IntegersBefore(f, g, steps);
  }

  lemma NumbersBefore(f: Frame, g: Frame, steps: seq<Step>)
    requires |steps| > 0 && Accepts(f, steps[0]) && Keeps(f, g, Adds(steps[0]))
    requires forall d :: Has(g, d) <==> Has(f, d) || d in Adds(steps[0])
    requires SuppliedNumbers(g, steps[1..])
    ensures SuppliedNumbers(f, steps)
  {
    var rest := NumNeedsAll(steps[1..]) - AddsAll(steps[1..]);
    forall d | d in NumNeedsAll(steps) - AddsAll(steps) ensures Has(f, d) && NumericColumn(f, d) {
      if d !in NumNeeds(steps[0]) {
        assert d in rest && d !in Adds(steps[0]);
        ColumnBefore(f, g, Adds(steps[0]), d);
      }
    }
  }

  lemma IntegersBefore(f: Frame, g: Frame, steps: seq<Step>)
    requires |steps| > 0 && Accepts(f, steps[0]) && Keeps(f, g, Adds(steps[0]))
    requires forall d :: Has(g, d) <==> Has(f, d) || d in Adds(steps[0])
    requires SuppliedIntegers(g, steps[1..])
    ensures SuppliedIntegers(f, steps)
  {
    var rest := IntNeedsAll(steps[1..]) - AddsAll(steps[1..]);
    forall d | d in IntNeedsAll(steps) - AddsAll(steps) ensures Has(f, d) && IntColumn(f, d) {
      if d !in IntNeeds(steps[0]) {
        assert d in rest && d !in Adds(steps[0]);
        ColumnBefore(f, g, Adds(steps[0]), d);
      }
    }
  }

  lemma ColumnBefore(f: Frame, g: Frame, except: set<string>, d: string)
    requires Keeps(f, g, except) && Has(f, d) && d !in except
    ensures NumericColumn(g, d) ==> NumericColumn(f, d)
    ensures IntColumn(g, d) ==> IntColumn(f, d)
  {
    assert forall i :: 0 <= i < |f.rows| ==> At(g, i, d) == At(f, i, d);
  }

  // ---------------------------------------------------------------------------
  // The adapter's feature generation

  /** The steps of `gerar_features_vulnerabilidade`, in the order it assigns
      the columns. */
  const AdapterSteps: seq<Step> := [
    PerCapitaStep,
    FlagStep(VulnerabilidadeIdade, Idade, AgeAtRisk),
    InfraStep,
    FlagStep(EscolaridadeBaixa, Escolaridade, LowSchooling),
    FlagStep(TrabalhoPrecario, SituacaoTrabalho, PrecariousWork),
    FlagStep(Superlotacao, QtdPessoas, Overcrowded),
    ScoreStep,
    TierStep
  ]

  /** Every column the adapter's feature generation assigns. */
  const AdapterColumns: set<string> :=
    {RendaPerCapita, VulnerabilidadeIdade, InfraestruturaAdequada, EscolaridadeBaixa, TrabalhoPrecario,
     Superlotacao, RendaNorm, Score, Nivel}

  /** The columns it reads as numbers without writing them. */
  const AdapterNumeric: set<string> :=
    {RendaFamiliar, QtdPessoas, Idade, Escolaridade, SituacaoTrabalho, PossuiDeficiencia}

  /** The columns it combines with `&`. */
  const AdapterIntegers: set<string> := {AcessoAgua, AcessoEsgoto}

  /** The inputs are there: numbers where they are compared or weighted,
      integers where they are combined with `&`. */
  predicate AdapterInputs(f: Frame) {
    && (forall d :: d in AdapterNumeric ==> Has(f, d) && NumericColumn(f, d))
    && (forall d :: d in AdapterIntegers ==> Has(f, d) && IntColumn(f, d))
  }

  /** `gerar_features_vulnerabilidade(df)`: the table goes through exactly when
      its inputs are there; then every derived column follows its row-level
      definition, whatever the table held under that name before, and every
      other column is as it was. */
  function GenerateFeatures(f: Frame, sqrt: real -> real): (r: Result<Frame, Error>)
    requires Valid(f) && FiniteIncomes(f)
    ensures r.Ok? ==> Valid(r.value) && Keeps(f, r.value, AdapterColumns)
    ensures r.Ok? ==> forall d :: Has(r.value, d) <==> Has(f, d) || d in AdapterColumns
    ensures r.Ok? ==> forall k :: 0 <= k < |AdapterSteps| ==> Defined(r.value, AdapterSteps[k], None, ZScoring(sqrt))
  {
    AdapterPlan(f);
    AdapterAdds();
    AdapterUndisturbed();
    RunForced(f, AdapterSteps, ZScoring(sqrt))
  }

  /** The feature generation fails (with a `KeyError` or a `TypeError`)
      exactly when an input is missing or of the wrong type. */
  lemma GenerateFeaturesOk(f: Frame, sqrt: real -> real)
    requires Valid(f) && FiniteIncomes(f)
    ensures GenerateFeatures(f, sqrt).Ok? <==> AdapterInputs(f)
  {
    AdapterPlan(f);
    if AdapterInputs(f) {
      AdapterFeasible();
      FeasibleRuns(f, AdapterSteps, ZScoring(sqrt), AdapterNumeric, AdapterIntegers);
    }
    if GenerateFeatures(f, sqrt).Ok? {
      RunNeeds(f, AdapterSteps, ZScoring(sqrt));
      AdapterSupplied(f);
    }
  }

  /** The adapter's steps are the preprocessing module's, less the Bolsa
      Familia step. */
  lemma AdapterIsPipeline()
    ensures AdapterSteps == Pipeline[..6] + Pipeline[7..]
  {
  }

  lemma AdapterPlan(f: Frame)
    requires FiniteIncomes(f)
    ensures Plan(f, AdapterSteps)
  {
    NamesDistinct();
  }

  /** The columns the adapter's steps from `k` on write. */
  lemma AdapterTail8()
    ensures AddsAll(AdapterSteps[8..]) == {}
  {
    assert |AdapterSteps[8..]| == 0;
  }

  lemma AdapterTail7()
    ensures AddsAll(AdapterSteps[7..]) == {Nivel}
  {
    AdapterTail8();
    assert AdapterSteps[7..][1..] == AdapterSteps[8..];
  }

  lemma AdapterTail6()
    ensures AddsAll(AdapterSteps[6..]) == {Score, RendaNorm, Nivel}
  {
    AdapterTail7();
    assert AdapterSteps[6..][1..] == AdapterSteps[7..];
  }

  lemma AdapterTail5()
    ensures AddsAll(AdapterSteps[5..]) == {Superlotacao, Score, RendaNorm, Nivel}
  {
    AdapterTail6();
    assert AdapterSteps[5..][1..] == AdapterSteps[6..];
  }

  lemma AdapterTail4()
    ensures AddsAll(AdapterSteps[4..]) == {TrabalhoPrecario, Superlotacao, Score, RendaNorm, Nivel}
  {
    AdapterTail5();
    assert AdapterSteps[4..][1..] == AdapterSteps[5..];
  }

  lemma AdapterTail3()
    ensures AddsAll(AdapterSteps[3..]) == {EscolaridadeBaixa, TrabalhoPrecario, Superlotacao, Score, RendaNorm, Nivel}
  {
    AdapterTail4();
    assert AdapterSteps[3..][1..] == AdapterSteps[4..];
  }

  lemma AdapterTail2()
    ensures AddsAll(AdapterSteps[2..]) == {InfraestruturaAdequada, EscolaridadeBaixa, TrabalhoPrecario, Superlotacao, Score, RendaNorm, Nivel}
  {
    AdapterTail3();
    assert AdapterSteps[2..][1..] == AdapterSteps[3..];
  }

  lemma AdapterTail1()
    ensures AddsAll(AdapterSteps[1..]) == {VulnerabilidadeIdade, InfraestruturaAdequada, EscolaridadeBaixa, TrabalhoPrecario, Superlotacao, Score, RendaNorm, Nivel}
  {
    AdapterTail2();
    assert AdapterSteps[1..][1..] == AdapterSteps[2..];
  }

  lemma AdapterTail0()
    ensures AddsAll(AdapterSteps[0..]) == {RendaPerCapita, VulnerabilidadeIdade, InfraestruturaAdequada, EscolaridadeBaixa, TrabalhoPrecario, Superlotacao, Score, RendaNorm, Nivel}
  {
    AdapterTail1();
    assert AdapterSteps[0..][1..] == AdapterSteps[1..];
  }

  /** The adapter writes exactly the columns it assigns. */
  lemma AdapterAdds()
    ensures AddsAll(AdapterSteps) == AdapterColumns
  {
    AdapterTail0();
    assert AdapterSteps[0..] == AdapterSteps;
  }

  /** No step of the adapter rewrites a column an earlier step read. */
  lemma AdapterUndisturbed()
    ensures forall k :: 0 <= k < |AdapterSteps| ==> Undisturbed(AdapterSteps, k)
  {
    AdapterApart0();
    AdapterApart1();
    AdapterApart2();
    AdapterApart3();
    AdapterApart4();
    AdapterApart5();
    AdapterApart6();
    AdapterApart7();
  }

  lemma AdapterApart0()
    ensures Undisturbed(AdapterSteps, 0)
  {
    AdapterTail1();
    NamesDistinct();
  }

  lemma AdapterApart1()
    ensures Undisturbed(AdapterSteps, 1)
  {
    AdapterTail2();
    NamesDistinct();
  }

  lemma AdapterApart2()
    ensures Undisturbed(AdapterSteps, 2)
  {
    AdapterTail3();
    NamesDistinct();
  }

  lemma AdapterApart3()
    ensures Undisturbed(AdapterSteps, 3)
  {
    AdapterTail4();
    NamesDistinct();
  }

  lemma AdapterApart4()
    ensures Undisturbed(AdapterSteps, 4)
  {
    AdapterTail5();
    NamesDistinct();
  }

  lemma AdapterApart5()
    ensures Undisturbed(AdapterSteps, 5)
  {
    AdapterTail6();
    NamesDistinct();
  }

  lemma AdapterApart6()
    ensures Undisturbed(AdapterSteps, 6)
  {
    AdapterTail7();
    NamesDistinct();
  }

  lemma AdapterApart7()
    ensures Undisturbed(AdapterSteps, 7)
  {
    AdapterTail8();
    NamesDistinct();
  }

  /** What is known numeric after a step: what it writes replaces what was known. */
  function Known(num: set<string>, s: Step): set<string> {
    num - Adds(s) + NumericAdds(s)
  }

  /** Knowing more keeps a run feasible. */
  lemma {:induction false} FeasibleMono(num: set<string>, ints: set<string>, num': set<string>, ints': set<string>, steps: seq<Step>)
    requires num <= num' && ints <= ints' && Feasible(num, ints, steps)
    ensures Feasible(num', ints', steps)
    decreases |steps|
  {
    if |steps| > 0 {
      FeasibleMono(Known(num, steps[0]), ints - Adds(steps[0]), Known(num', steps[0]), ints' - Adds(steps[0]), steps[1..]);
    }
  }

  /** A step that finds its inputs, followed by a run feasible on part of what
      is known after it. */
  lemma FeasibleStep(num: set<string>, ints: set<string>, steps: seq<Step>, num': set<string>, ints': set<string>)
    requires |steps| > 0 && NumNeeds(steps[0]) <= num && IntNeeds(steps[0]) <= ints
    requires num' <= Known(num, steps[0]) && ints' <= ints - Adds(steps[0])
    requires Feasible(num', ints', steps[1..])
    ensures Feasible(num, ints, steps)
  {
    FeasibleMono(num', ints', Known(num, steps[0]), ints - Adds(steps[0]), steps[1..]);
  }

  /** Given its inputs, every step of the adapter finds what it needs. */
  lemma AdapterFeasible()
    ensures Feasible(AdapterNumeric, AdapterIntegers, AdapterSteps)
  {
    var a := AdapterSteps;
    assert |a[8..]| == 0;
    assert a[7..][1..] == a[8..];
    FeasibleStep({Score}, {}, a[7..], {}, {});
    assert a[6..][1..] == a[7..];
    AdapterKnown6();
    FeasibleStep({RendaPerCapita, VulnerabilidadeIdade, InfraestruturaAdequada, EscolaridadeBaixa, TrabalhoPrecario, Superlotacao, PossuiDeficiencia}, {}, a[6..], {Score}, {});
    assert a[5..][1..] == a[6..];
    AdapterKnown5();
    FeasibleStep({RendaPerCapita, VulnerabilidadeIdade, InfraestruturaAdequada, EscolaridadeBaixa, TrabalhoPrecario, QtdPessoas, PossuiDeficiencia}, {}, a[5..], {RendaPerCapita, VulnerabilidadeIdade, InfraestruturaAdequada, EscolaridadeBaixa, TrabalhoPrecario, Superlotacao, PossuiDeficiencia}, {});
    assert a[4..][1..] == a[5..];
    AdapterKnown4();
    FeasibleStep({RendaPerCapita, VulnerabilidadeIdade, InfraestruturaAdequada, EscolaridadeBaixa, QtdPessoas, SituacaoTrabalho, PossuiDeficiencia}, {}, a[4..], {RendaPerCapita, VulnerabilidadeIdade, InfraestruturaAdequada, EscolaridadeBaixa, TrabalhoPrecario, QtdPessoas, PossuiDeficiencia}, {});
    assert a[3..][1..] == a[4..];
    AdapterKnown3();
    FeasibleStep({RendaPerCapita, VulnerabilidadeIdade, InfraestruturaAdequada, QtdPessoas, Escolaridade, SituacaoTrabalho, PossuiDeficiencia}, {}, a[3..], {RendaPerCapita, VulnerabilidadeIdade, InfraestruturaAdequada, EscolaridadeBaixa, QtdPessoas, SituacaoTrabalho, PossuiDeficiencia}, {});
    assert a[2..][1..] == a[3..];
    AdapterKnown2();
    FeasibleStep({RendaPerCapita, VulnerabilidadeIdade, QtdPessoas, Escolaridade, SituacaoTrabalho, PossuiDeficiencia}, {AcessoAgua, AcessoEsgoto}, a[2..], {RendaPerCapita, VulnerabilidadeIdade, InfraestruturaAdequada, QtdPessoas, Escolaridade, SituacaoTrabalho, PossuiDeficiencia}, {});
    assert a[1..][1..] == a[2..];
    AdapterKnown1();
    FeasibleStep({RendaPerCapita, QtdPessoas, Idade, Escolaridade, SituacaoTrabalho, PossuiDeficiencia}, {AcessoAgua, AcessoEsgoto}, a[1..], {RendaPerCapita, VulnerabilidadeIdade, QtdPessoas, Escolaridade, SituacaoTrabalho, PossuiDeficiencia}, {AcessoAgua, AcessoEsgoto});
    assert a[0..][1..] == a[1..];
    AdapterKnown0();
    FeasibleStep({RendaFamiliar, QtdPessoas, Idade, Escolaridade, SituacaoTrabalho, PossuiDeficiencia}, {AcessoAgua, AcessoEsgoto}, a[0..], {RendaPerCapita, QtdPessoas, Idade, Escolaridade, SituacaoTrabalho, PossuiDeficiencia}, {AcessoAgua, AcessoEsgoto});
    assert a[0..] == a;
  }

  lemma AdapterKnown0()
    ensures NumNeeds(AdapterSteps[0]) <= {RendaFamiliar, QtdPessoas, Idade, Escolaridade, SituacaoTrabalho, PossuiDeficiencia} && IntNeeds(AdapterSteps[0]) <= {AcessoAgua, AcessoEsgoto}
    ensures {RendaPerCapita, QtdPessoas, Idade, Escolaridade, SituacaoTrabalho, PossuiDeficiencia} <= Known({RendaFamiliar, QtdPessoas, Idade, Escolaridade, SituacaoTrabalho, PossuiDeficiencia}, AdapterSteps[0])
    ensures {AcessoAgua, AcessoEsgoto} <= {AcessoAgua, AcessoEsgoto} - Adds(AdapterSteps[0])
  {
    NamesDistinct();
  }

  lemma AdapterKnown1()
    ensures NumNeeds(AdapterSteps[1]) <= {RendaPerCapita, QtdPessoas, Idade, Escolaridade, SituacaoTrabalho, PossuiDeficiencia} && IntNeeds(AdapterSteps[1]) <= {AcessoAgua, AcessoEsgoto}
    ensures {RendaPerCapita, VulnerabilidadeIdade, QtdPessoas, Escolaridade, SituacaoTrabalho, PossuiDeficiencia} <= Known({RendaPerCapita, QtdPessoas, Idade, Escolaridade, SituacaoTrabalho, PossuiDeficiencia}, AdapterSteps[1])
    ensures {AcessoAgua, AcessoEsgoto} <= {AcessoAgua, AcessoEsgoto} - Adds(AdapterSteps[1])
  {
    NamesDistinct();
  }

  lemma AdapterKnown2()
    ensures NumNeeds(AdapterSteps[2]) <= {RendaPerCapita, VulnerabilidadeIdade, QtdPessoas, Escolaridade, SituacaoTrabalho, PossuiDeficiencia} && IntNeeds(AdapterSteps[2]) <= {AcessoAgua, AcessoEsgoto}
    ensures {RendaPerCapita, VulnerabilidadeIdade, InfraestruturaAdequada, QtdPessoas, Escolaridade, SituacaoTrabalho, PossuiDeficiencia} <= Known({RendaPerCapita, VulnerabilidadeIdade, QtdPessoas, Escolaridade, SituacaoTrabalho, PossuiDeficiencia}, AdapterSteps[2])
    ensures {} <= {AcessoAgua, AcessoEsgoto} - Adds(AdapterSteps[2])
  {
    NamesDistinct();
  }

  lemma AdapterKnown3()
    ensures NumNeeds(AdapterSteps[3]) <= {RendaPerCapita, VulnerabilidadeIdade, InfraestruturaAdequada, QtdPessoas, Escolaridade, SituacaoTrabalho, PossuiDeficiencia} && IntNeeds(AdapterSteps[3]) <= {}
    ensures {RendaPerCapita, VulnerabilidadeIdade, InfraestruturaAdequada, EscolaridadeBaixa, QtdPessoas, SituacaoTrabalho, PossuiDeficiencia} <= Known({RendaPerCapita, VulnerabilidadeIdade, InfraestruturaAdequada, QtdPessoas, Escolaridade, SituacaoTrabalho, PossuiDeficiencia}, AdapterSteps[3])
    ensures {} <= {} - Adds(AdapterSteps[3])
  {
    NamesDistinct();
  }

  lemma AdapterKnown4()
    ensures NumNeeds(AdapterSteps[4]) <= {RendaPerCapita, VulnerabilidadeIdade, InfraestruturaAdequada, EscolaridadeBaixa, QtdPessoas, SituacaoTrabalho, PossuiDeficiencia} && IntNeeds(AdapterSteps[4]) <= {}
    ensures {RendaPerCapita, VulnerabilidadeIdade, InfraestruturaAdequada, EscolaridadeBaixa, TrabalhoPrecario, QtdPessoas, PossuiDeficiencia} <= Known({RendaPerCapita, VulnerabilidadeIdade, InfraestruturaAdequada, EscolaridadeBaixa, QtdPessoas, SituacaoTrabalho, PossuiDeficiencia}, AdapterSteps[4])
    ensures {} <= {} - Adds(AdapterSteps[4])
  {
    NamesDistinct();
  }

  lemma AdapterKnown5()
    ensures NumNeeds(AdapterSteps[5]) <= {RendaPerCapita, VulnerabilidadeIdade, InfraestruturaAdequada, EscolaridadeBaixa, TrabalhoPrecario, QtdPessoas, PossuiDeficiencia} && IntNeeds(AdapterSteps[5]) <= {}
    ensures {RendaPerCapita, VulnerabilidadeIdade, InfraestruturaAdequada, EscolaridadeBaixa, TrabalhoPrecario, Superlotacao, PossuiDeficiencia} <= Known({RendaPerCapita, VulnerabilidadeIdade, InfraestruturaAdequada, EscolaridadeBaixa, TrabalhoPrecario, QtdPessoas, PossuiDeficiencia}, AdapterSteps[5])
    ensures {} <= {} - Adds(AdapterSteps[5])
  {
    NamesDistinct();
  }

  lemma AdapterKnown6()
    ensures NumNeeds(AdapterSteps[6]) <= {RendaPerCapita, VulnerabilidadeIdade, InfraestruturaAdequada, EscolaridadeBaixa, TrabalhoPrecario, Superlotacao, PossuiDeficiencia} && IntNeeds(AdapterSteps[6]) <= {}
    ensures {Score} <= Known({RendaPerCapita, VulnerabilidadeIdade, InfraestruturaAdequada, EscolaridadeBaixa, TrabalhoPrecario, Superlotacao, PossuiDeficiencia}, AdapterSteps[6])
    ensures {} <= {} - Adds(AdapterSteps[6])
  {
    NamesDistinct();
  }

  /** A supplied adapter run had its inputs. */
  lemma AdapterSupplied(f: Frame)
    requires Supplied(f, AdapterSteps)
    ensures AdapterInputs(f)
  {
    AdapterAdds();
    InputsUnwritten();
    NeedsAllHold(AdapterSteps, 0);
    NeedsAllHold(AdapterSteps, 1);
    NeedsAllHold(AdapterSteps, 2);
    NeedsAllHold(AdapterSteps, 3);
    NeedsAllHold(AdapterSteps, 4);
    NeedsAllHold(AdapterSteps, 6);
    assert RendaFamiliar in NumNeeds(AdapterSteps[0]) && QtdPessoas in NumNeeds(AdapterSteps[0]);
    assert Idade in NumNeeds(AdapterSteps[1]) && AcessoAgua in IntNeeds(AdapterSteps[2]);
    assert AcessoEsgoto in IntNeeds(AdapterSteps[2]) && Escolaridade in NumNeeds(AdapterSteps[3]);
    assert SituacaoTrabalho in NumNeeds(AdapterSteps[4]) && PossuiDeficiencia in NumNeeds(AdapterSteps[6]);
  }

  /** The adapter's inputs are not among the columns it assigns. */
  lemma InputsUnwritten()
    ensures forall d :: d in AdapterNumeric ==> d !in AdapterColumns
    ensures forall d :: d in AdapterIntegers ==> d !in AdapterColumns
  {
    NamesDistinct();
  }
}
