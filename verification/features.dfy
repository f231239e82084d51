/** Vulnerability features of a household table (`gerar_features_vulnerabilidade`
    of the preprocessing module): per-capita income, five 0/1 risk flags, the
    Bolsa Familia flag, a weighted score built on the batch z-score of per-capita
    income, and the score's tier. Every derived column is guarded: a column that is
    already present is never recomputed, and a table that already carries a tier
    is returned as it is. */
module Features {
  import opened Wrappers
  import opened Seqs
  import opened Frames
  import opened Stats
  import opened Levels
  import opened Normalisation
  import Bits
  import Joins

  const RendaFamiliar := "renda_familiar"
  const QtdPessoas := "qtd_pessoas_familia"
  const RendaPerCapita := "renda_per_capita"
  const Idade := "idade"
  const Escolaridade := "escolaridade"
  const SituacaoTrabalho := "situacao_trabalho"
  const AcessoAgua := "acesso_agua"
  const AcessoEsgoto := "acesso_esgoto"
  const PossuiDeficiencia := "possui_deficiencia"
  const Nis := "nis"
  const StatusBeneficio := "status_beneficio"
  const VulnerabilidadeIdade := "vulnerabilidade_idade"
  const InfraestruturaAdequada := "infraestrutura_adequada"
  const EscolaridadeBaixa := "escolaridade_baixa"
  const TrabalhoPrecario := "situacao_trabalho_precaria"
  const Superlotacao := "superlotacao"
  const TipoMoradia := "tipo_moradia"
  const RecebeBolsa := "recebe_bolsa_familia"
  const RendaNorm := "renda_per_capita_norm"
  const Score := "score_vulnerabilidade"
  const Nivel := "nivel_vulnerabilidade"

  // ---------------------------------------------------------------------------
  // Row-level definitions

  /** Children and the elderly. */
  predicate AgeAtRisk(x: real) { x < 18.0 || x > 65.0 }

  predicate LowSchooling(x: real) { x <= 2.0 }

  predicate PrecariousWork(x: real) { x <= 1.0 }

  predicate Overcrowded(x: real) { x > 5.0 }

  /** `(column <op> k).astype(int)` for one cell: a NaN compares false. */
  function FlagCell(c: Cell, test: real -> bool): (r: Cell)
    ensures r == Some(Int(0)) || r == Some(Int(1))
    ensures r == Some(Int(1)) <==> Num(c).Some? && test(Num(c).value)
  {
    Some(Int(if Num(c).Some? && test(Num(c).value) then 1 else 0))
  }

  /** A quotient the reals can express: pandas turns `x / 0` into an infinity for
      `x != 0`, which this model keeps out of its inputs. */
  predicate FiniteQuotient(renda: Cell, size: Cell) {
    NumEq(size, 0.0) ==> Num(renda).None? || Num(renda).value == 0.0
  }

  ghost predicate FiniteIncomes(f: Frame) {
    forall i :: 0 <= i < |f.rows| ==> FiniteQuotient(At(f, i, RendaFamiliar), At(f, i, QtdPessoas))
  }

  /** Family income over household size; NaN when either is NaN and for 0 / 0. */
  function PerCapitaCell(renda: Cell, size: Cell): (r: Cell)
    ensures r.Some? <==> Num(renda).Some? && Num(size).Some? && Num(size).value != 0.0
    ensures r.Some? ==> r.value.Float? && r.value.x * Num(size).value == Num(renda).value
  {
    match (Num(renda), Num(size))
    case (Some(a), Some(b)) => if b != 0.0 then Some(Float(a / b)) else None
    case _ => None
  }

  /** `acesso_agua & acesso_esgoto` on one row of two integer columns. */
  function AndCell(a: Cell, b: Cell): (r: Cell)
    ensures a.Some? && a.value.Int? && b.Some? && b.value.Int? ==> r.Some? && r.value.Int?
  {
    match (a, b)
    case (Some(Int(x)), Some(Int(y))) => Some(Int(Bits.BitAnd(x, y)))
    case _ => None
  }

  /** On 0/1 access codes the infrastructure flag is 1 exactly when both are 1. */
  lemma AndCellOnFlags(x: int, y: int)
    requires (x == 0 || x == 1) && (y == 0 || y == 1)
    ensures AndCell(Some(Int(x)), Some(Int(y))) == Some(Int(if x == 1 && y == 1 then 1 else 0))
  {
    Bits.BitAndFlags(x, y);
  }

  /** The fixed weights: income lowers vulnerability, adequate infrastructure
      lowers it, every other factor raises it. */
  function WeightedScore(z: real, age: real, infra: real, school: real, work: real, crowd: real, disability: real): real {
    -0.3 * z + 0.2 * age - 0.15 * infra + 0.15 * school + 0.2 * work + 0.1 * crowd + 0.1 * disability
  }

  /** The score is decreasing in normalised income and in infrastructure and
      increasing in every other factor. */
  lemma WeightedScoreMonotone(z: real, z': real, age: real, infra: real, school: real, work: real, crowd: real, disability: real, d: real)
    requires z <= z' && d >= 0.0
    ensures WeightedScore(z', age, infra, school, work, crowd, disability) <= WeightedScore(z, age, infra, school, work, crowd, disability)
    ensures WeightedScore(z, age + d, infra, school, work, crowd, disability) >= WeightedScore(z, age, infra, school, work, crowd, disability)
    ensures WeightedScore(z, age, infra + d, school, work, crowd, disability) <= WeightedScore(z, age, infra, school, work, crowd, disability)
    ensures WeightedScore(z, age, infra, school + d, work, crowd, disability) >= WeightedScore(z, age, infra, school, work, crowd, disability)
    ensures WeightedScore(z, age, infra, school, work + d, crowd, disability) >= WeightedScore(z, age, infra, school, work, crowd, disability)
    ensures WeightedScore(z, age, infra, school, work, crowd + d, disability) >= WeightedScore(z, age, infra, school, work, crowd, disability)
    ensures WeightedScore(z, age, infra, school, work, crowd, disability + d) >= WeightedScore(z, age, infra, school, work, crowd, disability)
  {
  }

  /** A household one standard deviation below the mean income, with the age,
      low-schooling and precarious-work flags set, scores 0.85 and is ranked
      `Muito Alta`. */
  lemma ScoreExample()
    ensures WeightedScore(-1.0, 1.0, 0.0, 1.0, 1.0, 0.0, 0.0) == 0.85
    ensures TierOf(0.85) == MuitoAlta
  {
  }

  /** An income of 1000 shared by 4 people is 250 per person. */
  lemma PerCapitaExample()
    ensures PerCapitaCell(Some(Int(1000)), Some(Int(4))) == Some(Float(250.0))
  {
  }

  /** The score of one row; NaN when any term is NaN. */
  function ScoreCell(z: Cell, age: Cell, infra: Cell, school: Cell, work: Cell, crowd: Cell, disability: Cell): (r: Cell)
    ensures r.Some? <==> Num(z).Some? && Num(age).Some? && Num(infra).Some? && Num(school).Some?
                         && Num(work).Some? && Num(crowd).Some? && Num(disability).Some?
    ensures r.Some? ==> r.value.Float?
  {
    if Num(z).Some? && Num(age).Some? && Num(infra).Some? && Num(school).Some?
       && Num(work).Some? && Num(crowd).Some? && Num(disability).Some?
    then Some(Float(WeightedScore(Num(z).value, Num(age).value, Num(infra).value, Num(school).value,
                                  Num(work).value, Num(crowd).value, Num(disability).value)))
    else None
  }

  /** `x in keys` in the sense of `Series.isin`. */
  predicate Member(x: Cell, keys: seq<Cell>) {
    exists k :: 0 <= k < |keys| && Joins.KeyEq(x, keys[k])
  }

  /** The `nis` cells of the payment rows whose status is `'ativo'`, in order. */
  function ActiveNis(bolsa: Frame): (ks: seq<Cell>)
    requires Valid(bolsa) && Has(bolsa, StatusBeneficio) && Has(bolsa, Nis)
    ensures forall x :: x in ks <==> exists j :: 0 <= j < |bolsa.rows| && At(bolsa, j, StatusBeneficio) == Some(Text("ativo")) && At(bolsa, j, Nis) == x
  {
    var ks := IndexOf(bolsa.columns, StatusBeneficio);
    var kn := IndexOf(bolsa.columns, Nis);
    var active := (row: Row) => CellOf(row, ks) == Some(Text("ativo"));
    var rows := Filter(bolsa.rows, active);
    var out := seq(|rows|, j requires 0 <= j < |rows| => CellOf(rows[j], kn));
    forall x ensures x in out <==> exists j :: 0 <= j < |bolsa.rows| && At(bolsa, j, StatusBeneficio) == Some(Text("ativo")) && At(bolsa, j, Nis) == x {
      if x in out {
        var t :| 0 <= t < |rows| && out[t] == x;
        assert rows[t] in rows;
        var j :| 0 <= j < |bolsa.rows| && bolsa.rows[j] == rows[t];
        assert At(bolsa, j, Nis) == x;
      }
      if exists j :: 0 <= j < |bolsa.rows| && At(bolsa, j, StatusBeneficio) == Some(Text("ativo")) && At(bolsa, j, Nis) == x {
        var j :| 0 <= j < |bolsa.rows| && At(bolsa, j, StatusBeneficio) == Some(Text("ativo")) && At(bolsa, j, Nis) == x;
        var row := bolsa.rows[j];
        assert active(row);
        FilterKeeps(bolsa.rows, active, row);
        var t :| 0 <= t < |rows| && rows[t] == row;
        assert out[t] == x;
      }
    }
    out
  }

  // ---------------------------------------------------------------------------
  // Guarded steps

  /** `renda_per_capita = renda_familiar / qtd_pessoas_familia`, unless present. */
  function AddPerCapita(f: Frame): (r: Result<Frame, Error>)
    requires Valid(f)
    requires !Has(f, RendaPerCapita) ==> FiniteIncomes(f)
    ensures Has(f, RendaPerCapita) ==> r == Ok(f)
    ensures !Has(f, RendaPerCapita) ==>
      (r.Ok? <==> Has(f, RendaFamiliar) && Has(f, QtdPessoas) && NumericColumn(f, RendaFamiliar) && NumericColumn(f, QtdPessoas))
    ensures r.Ok? ==> Valid(r.value) && Keeps(f, r.value, {}) && Has(r.value, RendaPerCapita)
    ensures r.Ok? ==> r.value.columns == if Has(f, RendaPerCapita) then f.columns else f.columns + [RendaPerCapita]
    ensures r.Ok? ==> forall d :: Has(r.value, d) <==> Has(f, d) || d == RendaPerCapita
    ensures r.Ok? && !Has(f, RendaPerCapita) ==> forall i :: 0 <= i < |f.rows| ==>
      At(r.value, i, RendaPerCapita) == PerCapitaCell(At(r.value, i, RendaFamiliar), At(r.value, i, QtdPessoas))
  {
    if Has(f, RendaPerCapita) then Ok(f)
    else
      var _ :- Require(f, [RendaFamiliar, QtdPessoas], [RendaFamiliar, QtdPessoas]);
      Ok(Append(f, RendaPerCapita, seq(|f.rows|, i requires 0 <= i < |f.rows| => PerCapitaCell(At(f, i, RendaFamiliar), At(f, i, QtdPessoas)))))
  }

  /** `c = (src <test>).astype(int)`, unless `c` is present. */
  function AddFlag(f: Frame, c: string, src: string, test: real -> bool): (r: Result<Frame, Error>)
    requires Valid(f) && c != src
    ensures Has(f, c) ==> r == Ok(f)
    ensures !Has(f, c) ==> (r.Ok? <==> Has(f, src) && NumericColumn(f, src))
    ensures r.Err? ==> r.error == if Has(f, src) then TypeMismatch(src) else MissingColumn(src)
    ensures r.Ok? ==> Valid(r.value) && Keeps(f, r.value, {}) && Has(r.value, c)
    ensures r.Ok? ==> r.value.columns == if Has(f, c) then f.columns else f.columns + [c]
    ensures r.Ok? ==> forall d :: Has(r.value, d) <==> Has(f, d) || d == c
    ensures r.Ok? && !Has(f, c) ==> forall i :: 0 <= i < |f.rows| ==> At(r.value, i, c) == FlagCell(At(r.value, i, src), test)
  {
    if Has(f, c) then Ok(f)
    else
      var _ :- Require(f, [src], [src]);
      Ok(Append(f, c, seq(|f.rows|, i requires 0 <= i < |f.rows| => FlagCell(At(f, i, src), test))))
  }

  /** Every cell of column `c` holds an integer (an `int64` column). */
  predicate IntColumn(f: Frame, c: string) {
    forall i :: 0 <= i < |f.rows| ==> At(f, i, c).Some? && At(f, i, c).value.Int?
  }

  /** `infraestrutura_adequada = (acesso_agua & acesso_esgoto).astype(int)`,
      unless present; `&` on a column holding NaN or a float raises. */
  function AddInfra(f: Frame): (r: Result<Frame, Error>)
    requires Valid(f)
    ensures Has(f, InfraestruturaAdequada) ==> r == Ok(f)
    ensures !Has(f, InfraestruturaAdequada) ==>
      (r.Ok? <==> Has(f, AcessoAgua) && Has(f, AcessoEsgoto) && IntColumn(f, AcessoAgua) && IntColumn(f, AcessoEsgoto))
    ensures r.Ok? ==> Valid(r.value) && Keeps(f, r.value, {}) && Has(r.value, InfraestruturaAdequada)
    ensures r.Ok? ==> r.value.columns == if Has(f, InfraestruturaAdequada) then f.columns else f.columns + [InfraestruturaAdequada]
    ensures r.Ok? ==> forall d :: Has(r.value, d) <==> Has(f, d) || d == InfraestruturaAdequada
    ensures r.Ok? && !Has(f, InfraestruturaAdequada) ==> forall i :: 0 <= i < |f.rows| ==>
      At(r.value, i, InfraestruturaAdequada) == AndCell(At(r.value, i, AcessoAgua), At(r.value, i, AcessoEsgoto))
  {
    if Has(f, InfraestruturaAdequada) then Ok(f)
    else
      var _ :- Require(f, [AcessoAgua, AcessoEsgoto], []);
      if !IntColumn(f, AcessoAgua) then Err(TypeMismatch(AcessoAgua))
      else if !IntColumn(f, AcessoEsgoto) then Err(TypeMismatch(AcessoEsgoto))
      else Ok(Append(f, InfraestruturaAdequada, seq(|f.rows|, i requires 0 <= i < |f.rows| => AndCell(At(f, i, AcessoAgua), At(f, i, AcessoEsgoto)))))
  }

  /** Row `i` of `g` is flagged exactly when some active payment of `b` carries
      its `nis`. */
  ghost predicate PaidFlag(g: Frame, b: Frame) {
    forall i :: 0 <= i < |g.rows| ==>
      && (At(g, i, RecebeBolsa) == Some(Int(0)) || At(g, i, RecebeBolsa) == Some(Int(1)))
      && (At(g, i, RecebeBolsa) == Some(Int(1)) <==>
          exists j :: 0 <= j < |b.rows| && At(b, j, StatusBeneficio) == Some(Text("ativo"))
                      && Joins.KeyEq(At(g, i, Nis), At(b, j, Nis)))
  }

  /** The Bolsa Familia flag as the derivation writes it: 0 everywhere without a
      payment table, the payment match with one. */
  ghost predicate BolsaFlagged(g: Frame, bolsa: Option<Frame>) {
    match bolsa
    case None => forall i :: 0 <= i < |g.rows| ==> At(g, i, RecebeBolsa) == Some(Int(0))
    case Some(b) => PaidFlag(g, b)
  }

  /** `recebe_bolsa_familia`, unless present: with a payment table, 1 for the
      households whose `nis` is among the active payments' `nis`; without one, 0. */
  function AddBolsaFlag(f: Frame, bolsa: Option<Frame>): (r: Result<Frame, Error>)
    requires Valid(f) && (bolsa.Some? ==> Valid(bolsa.value))
    ensures Has(f, RecebeBolsa) ==> r == Ok(f)
    ensures bolsa.None? ==> r.Ok?
    ensures bolsa.Some? && !Has(f, RecebeBolsa) ==>
      (r.Ok? <==> Has(bolsa.value, StatusBeneficio) && Has(bolsa.value, Nis) && Has(f, Nis))
    ensures r.Ok? ==> Valid(r.value) && Keeps(f, r.value, {}) && Has(r.value, RecebeBolsa)
    ensures r.Ok? ==> r.value.columns == if Has(f, RecebeBolsa) then f.columns else f.columns + [RecebeBolsa]
    ensures r.Ok? ==> forall d :: Has(r.value, d) <==> Has(f, d) || d == RecebeBolsa
    ensures r.Ok? && !Has(f, RecebeBolsa) ==> BolsaFlagged(r.value, bolsa)
  {
    if Has(f, RecebeBolsa) then Ok(f)
    else if bolsa.None? then Ok(Append(f, RecebeBolsa, Repeat(|f.rows|, Some(Int(0)))))
    else
      var _ :- Require(bolsa.value, [StatusBeneficio, Nis], []);
      var _ :- Require(f, [Nis], []);
      Ok(FlagPayments(f, bolsa.value))
  }

  /** `df['nis'].isin(active_nis).astype(int)` appended as the flag column. */
  function FlagPayments(f: Frame, b: Frame): (g: Frame)
    requires Valid(f) && Valid(b) && !Has(f, RecebeBolsa) && Has(f, Nis)
    requires Has(b, StatusBeneficio) && Has(b, Nis)
    ensures Valid(g) && Keeps(f, g, {}) && g.columns == f.columns + [RecebeBolsa]
    ensures PaidFlag(g, b)
  {
    var keys := ActiveNis(b);
    var vals := seq(|f.rows|, i requires 0 <= i < |f.rows| => Some(Int(if Member(At(f, i, Nis), keys) then 1 else 0)));
    var g := Append(f, RecebeBolsa, vals);
    forall i | 0 <= i < |f.rows|
      ensures At(g, i, RecebeBolsa) == Some(Int(1)) <==>
        exists j :: 0 <= j < |b.rows| && At(b, j, StatusBeneficio) == Some(Text("ativo")) && Joins.KeyEq(At(g, i, Nis), At(b, j, Nis))
    {
      var x := At(f, i, Nis);
      assert At(g, i, Nis) == x;
      if Member(x, keys) {
        var k :| 0 <= k < |keys| && Joins.KeyEq(x, keys[k]);
        assert keys[k] in keys;
      }
      if exists j :: 0 <= j < |b.rows| && At(b, j, StatusBeneficio) == Some(Text("ativo")) && Joins.KeyEq(x, At(b, j, Nis)) {
        var j :| 0 <= j < |b.rows| && At(b, j, StatusBeneficio) == Some(Text("ativo")) && Joins.KeyEq(x, At(b, j, Nis));
        assert At(b, j, Nis) in keys;
        var k :| 0 <= k < |keys| && keys[k] == At(b, j, Nis);
        assert Member(x, keys);
      }
    }
    g
  }

  /** The columns the score reads, in the order the weight table lists them. */
  const ScoreInputs: seq<string> := [RendaPerCapita, VulnerabilidadeIdade, InfraestruturaAdequada, EscolaridadeBaixa, TrabalhoPrecario, Superlotacao, PossuiDeficiencia]

  predicate HasScoreInputs(f: Frame) {
    && Has(f, RendaPerCapita) && Has(f, VulnerabilidadeIdade) && Has(f, InfraestruturaAdequada)
    && Has(f, EscolaridadeBaixa) && Has(f, TrabalhoPrecario) && Has(f, Superlotacao) && Has(f, PossuiDeficiencia)
  }

  lemma ScoreInputsPresent(f: Frame)
    requires forall c :: c in ScoreInputs ==> Has(f, c)
    ensures HasScoreInputs(f)
  {
    assert ScoreInputs[0] == RendaPerCapita && ScoreInputs[1] == VulnerabilidadeIdade;
    assert ScoreInputs[2] == InfraestruturaAdequada && ScoreInputs[3] == EscolaridadeBaixa;
    assert ScoreInputs[4] == TrabalhoPrecario && ScoreInputs[5] == Superlotacao && ScoreInputs[6] == PossuiDeficiencia;
  }

  /** A column transformer that returns as many cells as it is given. The
      derivation is stated for any such normalisation and instantiated with the
      batch z-score. */
  ghost predicate LengthPreserving(norm: seq<Cell> -> seq<Cell>) {
    forall col :: |norm(col)| == |col|
  }

  /** The score of row `i` from the columns of `f`. */
  function RowScore(f: Frame, i: int): Cell
    requires 0 <= i < |f.rows|
  {
    ScoreCell(At(f, i, RendaNorm), At(f, i, VulnerabilidadeIdade), At(f, i, InfraestruturaAdequada),
              At(f, i, EscolaridadeBaixa), At(f, i, TrabalhoPrecario), At(f, i, Superlotacao), At(f, i, PossuiDeficiencia))
  }

  /** `renda_per_capita_norm` and `score_vulnerabilidade`, unless the score is
      present. The normalised income is written even over an existing column. */
  function AddScore(f: Frame, norm: seq<Cell> -> seq<Cell>): (r: Result<Frame, Error>)
    requires Valid(f) && LengthPreserving(norm)
    ensures Has(f, Score) ==> r == Ok(f)
    ensures !Has(f, Score) ==> (r.Ok? <==> forall c :: c in ScoreInputs ==> Has(f, c) && NumericColumn(f, c))
    ensures r.Ok? ==> Valid(r.value) && Keeps(f, r.value, {RendaNorm}) && Has(r.value, Score)
    ensures r.Ok? ==> (r.value.columns ==
      if Has(f, Score) then f.columns
      else (if Has(f, RendaNorm) then f.columns else f.columns + [RendaNorm]) + [Score])
    ensures r.Ok? ==> forall d :: Has(r.value, d) <==> Has(f, d) || (!Has(f, Score) && (d == Score || d == RendaNorm))
    ensures r.Ok? && !Has(f, Score) ==> Column(r.value, RendaNorm) == norm(Column(r.value, RendaPerCapita))
    ensures r.Ok? && !Has(f, Score) ==> forall i :: 0 <= i < |f.rows| ==> At(r.value, i, Score) == RowScore(r.value, i)
  {
    if Has(f, Score) then Ok(f)
    else
      var _ :- Require(f, ScoreInputs, ScoreInputs);
      ScoreInputsPresent(f);
      var h := WithScore(f, norm);
      ScoreColumns(f, h);
      Ok(h)
  }

  lemma ScoreColumns(f: Frame, h: Frame)
    requires h.columns == (if Has(f, RendaNorm) then f.columns else f.columns + [RendaNorm]) + [Score]
    ensures forall d :: Has(h, d) <==> Has(f, d) || d == Score || d == RendaNorm
  {
  }

  function WithScore(f: Frame, norm: seq<Cell> -> seq<Cell>): (h: Frame)
    requires Valid(f) && LengthPreserving(norm) && !Has(f, Score) && HasScoreInputs(f)
    ensures Valid(h) && Keeps(f, h, {RendaNorm}) && Has(h, Score)
    ensures h.columns == (if Has(f, RendaNorm) then f.columns else f.columns + [RendaNorm]) + [Score]
    ensures Column(h, RendaNorm) == norm(Column(h, RendaPerCapita))
    ensures forall i :: 0 <= i < |f.rows| ==> At(h, i, Score) == RowScore(h, i)
  {
    var g := Normalised(f, norm);
    var h := WithRowScores(g);
    NamesDistinct();
    KeepsTrans(f, g, h, {RendaNorm}, {Score});
    ColumnKept(g, h, {Score}, RendaPerCapita);
    ColumnKept(g, h, {Score}, RendaNorm);
    h
  }

  /** `renda_per_capita_norm = norm(renda_per_capita)`, overwriting or appending. */
  function Normalised(f: Frame, norm: seq<Cell> -> seq<Cell>): (g: Frame)
    requires Valid(f) && LengthPreserving(norm) && !Has(f, Score) && HasScoreInputs(f)
    ensures Valid(g) && Keeps(f, g, {RendaNorm}) && !Has(g, Score) && HasScoreInputs(g) && Has(g, RendaNorm)
    ensures g.columns == if Has(f, RendaNorm) then f.columns else f.columns + [RendaNorm]
    ensures Column(g, RendaNorm) == norm(Column(g, RendaPerCapita))
  {
    NamesDistinct();
    var g := SetColumn(f, RendaNorm, norm(Column(f, RendaPerCapita)));
    ColumnKept(f, g, {RendaNorm}, RendaPerCapita);
    g
  }

  /** The score column appended after its inputs. */
  function WithRowScores(g: Frame): (h: Frame)
    requires Valid(g) && !Has(g, Score) && HasScoreInputs(g) && Has(g, RendaNorm)
    ensures Valid(h) && Keeps(g, h, {Score}) && h.columns == g.columns + [Score]
    ensures forall i :: 0 <= i < |g.rows| ==> At(h, i, Score) == RowScore(h, i)
  {
    var h := Append(g, Score, seq(|g.rows|, i requires 0 <= i < |g.rows| => RowScore(g, i)));
    ScoreKept(g, h);
    h
  }

  /** A column outside the changed set reads the same before and after. */
  lemma ColumnKept(f: Frame, g: Frame, except: set<string>, c: string)
    requires Keeps(f, g, except) && c in f.columns && c !in except
    ensures Column(g, c) == Column(f, c)
  {
  }

  /** The column names differ in length, or else in their first letter. */
  lemma NamesDistinct()
    ensures |RendaPerCapita| == 16 && |VulnerabilidadeIdade| == 21 && |InfraestruturaAdequada| == 23
    ensures |EscolaridadeBaixa| == 18 && |TrabalhoPrecario| == 26 && |Superlotacao| == 12
    ensures |RecebeBolsa| == 20 && |RendaNorm| == 21 && |Score| == 21 && |Nivel| == 21
    ensures |PossuiDeficiencia| == 18 && PossuiDeficiencia[0] == 'p' && EscolaridadeBaixa[0] == 'e'
    ensures VulnerabilidadeIdade[0] == 'v' && RendaNorm[0] == 'r' && Score[0] == 's' && Nivel[0] == 'n'
  {
  }

  /** Appending the score column leaves the score's inputs as they were. */
  lemma ScoreKept(g: Frame, h: Frame)
    requires Keeps(g, h, {Score}) && Has(g, RendaNorm) && HasScoreInputs(g)
    ensures forall i :: 0 <= i < |g.rows| ==> RowScore(h, i) == RowScore(g, i)
  {
    NamesDistinct();
    forall i | 0 <= i < |g.rows| ensures RowScore(h, i) == RowScore(g, i) {
      assert At(h, i, RendaNorm) == At(g, i, RendaNorm);
      assert At(h, i, VulnerabilidadeIdade) == At(g, i, VulnerabilidadeIdade);
      assert At(h, i, InfraestruturaAdequada) == At(g, i, InfraestruturaAdequada);
      assert At(h, i, EscolaridadeBaixa) == At(g, i, EscolaridadeBaixa);
      assert At(h, i, TrabalhoPrecario) == At(g, i, TrabalhoPrecario);
      assert At(h, i, Superlotacao) == At(g, i, Superlotacao);
      assert At(h, i, PossuiDeficiencia) == At(g, i, PossuiDeficiencia);
    }
  }

  /** `nivel_vulnerabilidade = pd.cut(score, ...)`, unless present. */
  function AddTier(f: Frame): (r: Result<Frame, Error>)
    requires Valid(f)
    ensures Has(f, Nivel) ==> r == Ok(f)
    ensures !Has(f, Nivel) ==> (r.Ok? <==> Has(f, Score) && NumericColumn(f, Score))
    ensures r.Ok? ==> Valid(r.value) && Keeps(f, r.value, {}) && Has(r.value, Nivel)
    ensures r.Ok? ==> r.value.columns == if Has(f, Nivel) then f.columns else f.columns + [Nivel]
    ensures r.Ok? ==> forall d :: Has(r.value, d) <==> Has(f, d) || d == Nivel
    ensures r.Ok? && !Has(f, Nivel) ==> forall i :: 0 <= i < |f.rows| ==> At(r.value, i, Nivel) == TierCell(At(r.value, i, Score))
  {
    if Has(f, Nivel) then Ok(f)
    else
      var _ :- Require(f, [Score], [Score]);
      Ok(Append(f, Nivel, seq(|f.rows|, i requires 0 <= i < |f.rows| => TierCell(At(f, i, Score)))))
  }
}
