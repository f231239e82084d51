/** Reading government files as they come (`mapeador_governo`): recognising a
    CadUnico family file, a CadUnico person file or a Bolsa Familia payment file
    by its header, and renaming and recoding its columns into the household table
    the classifier works on. */
module GovMapper {
  import opened Wrappers
  import opened Seqs
  import opened Frames
  import opened Features
  import opened Missing
  import opened Joins

  // ---------------------------------------------------------------------------
  // Recognising the file

  datatype Kind = CadunicoFamilia | CadunicoPessoa | BolsaFamilia | Desconhecido

  /** ASCII lower case, as `str.lower` acts on the header names the detector
      looks for. */
  function LowerChar(c: char): char {
    if 'A' <= c <= 'Z' then (c as int + 32) as char else c
  }

  function Lower(s: string): (t: string)
    ensures |t| == |s| && forall k :: 0 <= k < |s| ==> t[k] == LowerChar(s[k])
  {
    seq(|s|, k requires 0 <= k < |s| => LowerChar(s[k]))
  }

  function LowerAll(cols: seq<string>): (low: seq<string>)
    ensures |low| == |cols| && forall k :: 0 <= k < |cols| ==> low[k] == Lower(cols[k])
  {
    seq(|cols|, k requires 0 <= k < |cols| => Lower(cols[k]))
  }

  /** Lower-casing twice is lower-casing once. */
  lemma LowerIdempotent(s: string)
    ensures Lower(Lower(s)) == Lower(s)
  {
    assert forall k :: 0 <= k < |s| ==> Lower(Lower(s))[k] == Lower(s)[k];
  }

  /** Some header name of `cols`, in lower case, is `name`. */
  predicate Mentions(cols: seq<string>, name: string) {
    exists k :: 0 <= k < |cols| && Lower(cols[k]) == name
  }

  /** The kind of a file with header `cols`. The family marks win over the
      person marks, which win over the payment marks; a header with none is
      unknown. */
  function Classify(cols: seq<string>): Kind {
    var low := LowerAll(cols);
    if "cd_ibge" in low || "cod_familiar_fam" in low then CadunicoFamilia
    else if "cod_familiar_pes" in low || "nom_pessoa" in low then CadunicoPessoa
    else if "uf" in low && "valor_parcela" in low then BolsaFamilia
    else Desconhecido
  }

  lemma MentionsLowered(cols: seq<string>, name: string)
    ensures name in LowerAll(cols) <==> Mentions(cols, name)
  {
    if name in LowerAll(cols) {
      var k :| 0 <= k < |cols| && LowerAll(cols)[k] == name;
      assert Lower(cols[k]) == name;
    }
  }

  /** The kind in terms of the names the header mentions, in any letter case. */
  lemma ClassifyMarks(cols: seq<string>)
    ensures Classify(cols) == CadunicoFamilia <==> Mentions(cols, "cd_ibge") || Mentions(cols, "cod_familiar_fam")
    ensures Classify(cols) == CadunicoPessoa <==>
      !Mentions(cols, "cd_ibge") && !Mentions(cols, "cod_familiar_fam")
      && (Mentions(cols, "cod_familiar_pes") || Mentions(cols, "nom_pessoa"))
    ensures Classify(cols) == BolsaFamilia <==>
      !Mentions(cols, "cd_ibge") && !Mentions(cols, "cod_familiar_fam")
      && !Mentions(cols, "cod_familiar_pes") && !Mentions(cols, "nom_pessoa")
      && Mentions(cols, "uf") && Mentions(cols, "valor_parcela")
  {
    MentionsLowered(cols, "cd_ibge");
    MentionsLowered(cols, "cod_familiar_fam");
    MentionsLowered(cols, "cod_familiar_pes");
    MentionsLowered(cols, "nom_pessoa");
    MentionsLowered(cols, "uf");
    MentionsLowered(cols, "valor_parcela");
  }

  /** The letter case of the header does not change the kind. */
  lemma {:induction false} ClassifyIgnoresCase(cols: seq<string>)
    ensures Classify(LowerAll(cols)) == Classify(cols)
  {
    var low := LowerAll(cols);
    forall k | 0 <= k < |cols| ensures LowerAll(low)[k] == low[k] {
      LowerIdempotent(cols[k]);
    }
    assert LowerAll(low) == low;
  }

  datatype Encoding = Latin1 | Utf8

  /** The separator and encoding `read_csv` is called with. */
  datatype Config = Config(sep: char, encoding: Encoding)

  /** The configurations the detector tries, in order. */
  const Configs: seq<Config> := [
    Config(';', Latin1), Config(';', Utf8), Config('\t', Latin1),
    Config('\t', Utf8), Config(',', Utf8), Config(',', Latin1)
  ]

  datatype Detection = Detection(config: Config, kind: Kind, columns: seq<string>)

  /** Configuration `j` is the first one under which the file reads. `read`
      stands for `read_csv` of the first rows: the header, or `None` when the
      reader raises. */
  predicate FirstReadable(read: Config -> Option<seq<string>>, j: int) {
    0 <= j < |Configs| && read(Configs[j]).Some?
    && forall i :: 0 <= i < j ==> read(Configs[i]).None?
  }

  function DetectFrom(read: Config -> Option<seq<string>>, k: nat): (r: Result<Detection, Error>)
    requires k <= |Configs|
    ensures r.Err? <==> forall j :: k <= j < |Configs| ==> read(Configs[j]).None?
    ensures r.Err? ==> r.error == UndetectedFormat
    ensures r.Ok? ==> exists j :: (k <= j < |Configs| && read(Configs[j]).Some?
      && (forall i :: k <= i < j ==> read(Configs[i]).None?)
      && r.value == Detection(Configs[j], Classify(read(Configs[j]).value), read(Configs[j]).value))
    decreases |Configs| - k
  {
    if k == |Configs| then Err(UndetectedFormat)
    else match read(Configs[k])
      case Some(cols) => Ok(Detection(Configs[k], Classify(cols), cols))
      case None => DetectFrom(read, k + 1)
  }

  /** `detectar_formato_arquivo`: the first configuration that reads, with the
      kind its header shows; `UndetectedFormat` exactly when none reads. */
  function Detect(read: Config -> Option<seq<string>>): (r: Result<Detection, Error>)
    ensures r.Err? <==> forall j :: 0 <= j < |Configs| ==> read(Configs[j]).None?
    ensures r.Err? ==> r.error == UndetectedFormat
    ensures r.Ok? ==> exists j :: (FirstReadable(read, j) && r.value.config == Configs[j]
      && r.value.columns == read(Configs[j]).value)
    ensures r.Ok? ==> r.value.kind == Classify(r.value.columns)
  {
    DetectFrom(read, 0)
  }

  // ---------------------------------------------------------------------------
  // Numeric codes

  /** The value paired with the first key `x` of `table`. */
  function Lookup(table: seq<(real, Value)>, x: real): (v: Option<Value>)
    ensures v.Some? <==> exists k :: 0 <= k < |table| && table[k].0 == x
    ensures v.Some? ==> exists k :: 0 <= k < |table| && table[k].0 == x && table[k].1 == v.value
  {
    if |table| == 0 then None
    else if table[0].0 == x then Some(table[0].1)
    else
      var v := Lookup(table[1..], x);
      assert forall k :: 1 <= k < |table| ==> table[k] == table[1..][k - 1];
      v
  }

  /** `series.map(d)` on one cell for a dict `d` keyed by numbers: NaN and text
      cells, and numbers that are no key, become NaN. An integer cell finds its
      float key, as Python's `1 == 1.0` makes it do. */
  function MapCode(c: Cell, table: seq<(real, Value)>): (r: Cell)
    ensures r.Some? <==> Num(c).Some? && exists k :: 0 <= k < |table| && table[k].0 == Num(c).value
    ensures r.Some? ==> exists k :: 0 <= k < |table| && table[k].0 == Num(c).value && table[k].1 == r.value
  {
    match Num(c)
    case None => None
    case Some(x) => Lookup(table, x)
  }

  /** The numeric value of a cell after `fillna(d)`. */
  function NumOr(c: Cell, d: real): real {
    match Num(c)
    case Some(x) => x
    case None => d
  }

  // ---------------------------------------------------------------------------
  // CadUnico family file

  const CdIbge := "cd_ibge"
  const VlrRenda := "vlr_renda_media_fam"
  const QtdePessoas := "qtde_pessoas"
  const MarcPbf := "marc_pbf"
  const CodAgua := "cod_abaste_agua_domic_fam"
  const CodEsgoto := "cod_escoa_sanitario_domic_fam"
  const CodMaterial := "cod_material_domic_fam"
  const QtdComodos := "qtd_comodos_domic_fam"
  const CodIluminacao := "cod_iluminacao_domic_fam"
  const CodLixo := "cod_destino_lixo_domic_fam"

  /** The family-file columns the mapping reads, in the order it reads them. */
  const FamilySources: seq<string> := [
    CdIbge, VlrRenda, QtdePessoas, MarcPbf, CodAgua, CodEsgoto, CodMaterial, QtdComodos, CodIluminacao, CodLixo
  ]

  /** The columns that take part in arithmetic or an integer cast. */
  const FamilyNumeric: seq<string> := [VlrRenda, QtdePessoas, MarcPbf, QtdComodos]

  const CodMunicipio := "cod_municipio"
  const AcessoEnergia := "acesso_energia"
  const ColetaLixo := "coleta_lixo"
  const Sexo := "sexo"

  /** The mapped family table's columns, in the order they are assigned. */
  const FamilyColumns: seq<string> := [
    CodMunicipio, RendaFamiliar, QtdPessoas, RendaPerCapita, RecebeBolsa, AcessoAgua, AcessoEsgoto,
    TipoMoradia, Superlotacao, AcessoEnergia, ColetaLixo, Idade, Sexo, Escolaridade, SituacaoTrabalho,
    PossuiDeficiencia
  ]

  lemma FamilyColumnsDistinct()
    ensures |FamilyColumns| == 16 && Distinct(FamilyColumns)
  {
    assert |CodMunicipio| == 13 && |RendaFamiliar| == 14 && |QtdPessoas| == 19 && |RendaPerCapita| == 16;
    assert |RecebeBolsa| == 20 && |AcessoAgua| == 11 && |AcessoEsgoto| == 13 && |TipoMoradia| == 12;
    assert |Superlotacao| == 12 && |AcessoEnergia| == 14 && |ColetaLixo| == 11 && |Idade| == 5;
    assert |Sexo| == 4 && |Escolaridade| == 12 && |SituacaoTrabalho| == 17 && |PossuiDeficiencia| == 18;
    assert CodMunicipio[0] == 'c' && AcessoEsgoto[0] == 'a' && RendaFamiliar[0] == 'r' && AcessoEnergia[0] == 'a';
    assert AcessoAgua[0] == 'a' && ColetaLixo[0] == 'c';
    assert TipoMoradia[0] == 't' && Superlotacao[0] == 's' && Escolaridade[0] == 'e';
  }

  /** Wall material code to dwelling type: masonry with finish is 2, other
      masonry, planed wood and finished wattle are 1, the precarious materials
      5 to 8 are 0. */
  const MaterialCodes: seq<(real, Value)> := [
    (1.0, Int(2)), (2.0, Int(1)), (3.0, Int(1)), (4.0, Int(1)),
    (5.0, Int(0)), (6.0, Int(0)), (7.0, Int(0)), (8.0, Int(0))
  ]

  /** `map(material_mapping).fillna(1).astype(int)` on one cell. */
  function Material(c: Cell): (t: int)
    ensures 0 <= t <= 2
    ensures t == 2 <==> NumEq(c, 1.0)
    ensures t == 0 <==> NumEq(c, 5.0) || NumEq(c, 6.0) || NumEq(c, 7.0) || NumEq(c, 8.0)
  {
    match FillCell(MapCode(c, MaterialCodes), Some(Int(1)))
    case Some(Int(n)) => n
    case _ => 1
  }

  /** One mapped household, before it is laid out as a row. */
  datatype Household = Household(
    municipio: Cell, renda: Cell, pessoas: int, perCapita: real, bolsa: int,
    agua: bool, esgoto: bool, moradia: int, superlotacao: bool, energia: bool, lixo: bool)

  function Bit(b: bool): Cell {
    Some(Int(if b then 1 else 0))
  }

  /** The row of a household, in `FamilyColumns` order, with the responsible
      person's defaults: age 35, sex "F", schooling 2, work 0, no disability. */
  function Encode(h: Household): (row: Row)
    ensures |row| == |FamilyColumns|
  {
    [h.municipio, h.renda, Some(Int(h.pessoas)), Some(Float(h.perCapita)), Some(Int(h.bolsa)),
     Bit(h.agua), Bit(h.esgoto), Some(Int(h.moradia)), Bit(h.superlotacao), Bit(h.energia), Bit(h.lixo),
     Some(Int(35)), Some(Text("F")), Some(Int(2)), Some(Int(0)), Some(Int(0))]
  }

  /** `x / y` undone: the quotient times the divisor is the dividend. */
  lemma QuotientTimes(x: real, y: real)
    requires y != 0.0
    ensures (x / y) * y == x
  {
  }

  /** For a positive divisor, `x / y > 2` is `x > 2 y`. */
  lemma QuotientAbove(x: real, y: real)
    ensures y > 0.0 ==> (x / y > 2.0 <==> x > 2.0 * y)
  {
    if y > 0.0 {
      var q := x / y;
      assert q * y == x;
      if q > 2.0 {
        assert (q - 2.0) * y > 0.0;
      } else {
        assert (2.0 - q) * y >= 0.0;
      }
    }
  }

  /** `fillna(1).astype(int)` of the household size. */
  function Persons(c: Cell): (q: int)
    ensures Num(c).None? ==> q == 1
    ensures Num(c).Some? && 0.0 <= Num(c).value ==> q as real <= Num(c).value < q as real + 1.0
  {
    Trunc(NumOr(c, 1.0))
  }

  /** The family income over its size, a size of 0 dividing as 1: always a
      number, so replacing infinities and NaN afterwards changes nothing. */
  function PerCapita(renda: Cell, q: int): (pc: real)
    ensures pc * (if q == 0 then 1.0 else q as real) == NumOr(renda, 0.0)
  {
    var divisor := if q == 0 then 1.0 else q as real;
    QuotientTimes(NumOr(renda, 0.0), divisor);
    NumOr(renda, 0.0) / divisor
  }

  /** More than two people per room, a missing room count counting as 4 rooms
      and a count of 0 as 1 room. */
  function Crowded(q: int, rooms: Cell): (b: bool)
    ensures Num(rooms).None? ==> (b <==> q > 8)
    ensures NumEq(rooms, 0.0) ==> (b <==> q > 2)
    ensures Num(rooms).Some? && Num(rooms).value > 0.0 ==> (b <==> q as real > 2.0 * Num(rooms).value)
  {
    var n := NumOr(rooms, 4.0);
    var perRoom := if n == 0.0 then 1.0 else n;
    QuotientAbove(q as real, perRoom);
    q as real / perRoom > 2.0
  }

  /** Row `i` of the family file as the mapping reads it: the municipality
      code as it is, the income with NaN as 0, and each 0/1 flag set exactly
      when its code names the served case. */
  function HouseholdOf(f: Frame, i: int): (h: Household)
    requires 0 <= i < |f.rows|
    ensures h.municipio == At(f, i, CdIbge)
    ensures h.renda.Some? && (At(f, i, VlrRenda).Some? ==> h.renda == At(f, i, VlrRenda))
    ensures h.pessoas == Persons(At(f, i, QtdePessoas))
    ensures h.perCapita == PerCapita(At(f, i, VlrRenda), h.pessoas)
    ensures Num(At(f, i, MarcPbf)).None? ==> h.bolsa == 0
    ensures h.agua <==> NumEq(At(f, i, CodAgua), 1.0)
    ensures h.esgoto <==> NumEq(At(f, i, CodEsgoto), 1.0) || NumEq(At(f, i, CodEsgoto), 2.0)
    ensures h.moradia == Material(At(f, i, CodMaterial))
    ensures h.superlotacao == Crowded(h.pessoas, At(f, i, QtdComodos))
    ensures h.energia <==> NumEq(At(f, i, CodIluminacao), 1.0)
    ensures h.lixo <==> NumEq(At(f, i, CodLixo), 1.0)
  {
    var renda := FillCell(At(f, i, VlrRenda), Some(Int(0)));
    var q := Persons(At(f, i, QtdePessoas));
    Household(
      At(f, i, CdIbge), renda, q, PerCapita(renda, q), Trunc(NumOr(At(f, i, MarcPbf), 0.0)),
      NumEq(At(f, i, CodAgua), 1.0), NumEq(At(f, i, CodEsgoto), 1.0) || NumEq(At(f, i, CodEsgoto), 2.0),
      Material(At(f, i, CodMaterial)), Crowded(q, At(f, i, QtdComodos)),
      NumEq(At(f, i, CodIluminacao), 1.0), NumEq(At(f, i, CodLixo), 1.0))
  }

  /** `mapear_cadunico_familia`. A missing source column raises `KeyError`,
      text where the mapping computes raises; otherwise one household row per
      family, in order. */
  function MapFamily(f: Frame): (r: Result<Frame, Error>)
    requires Valid(f)
    ensures r.Ok? <==> (forall c :: c in FamilySources ==> Has(f, c)) && (forall c :: c in FamilyNumeric ==> NumericColumn(f, c))
    ensures r.Ok? ==> Valid(r.value) && r.value.columns == FamilyColumns && |r.value.rows| == |f.rows|
    ensures r.Ok? ==> forall i :: 0 <= i < |f.rows| ==> r.value.rows[i] == Encode(HouseholdOf(f, i))
  {
    var _ :- Require(f, FamilySources, FamilyNumeric);
    FamilyColumnsDistinct();
    Ok(Frame(FamilyColumns, seq(|f.rows|, i requires 0 <= i < |f.rows| => Encode(HouseholdOf(f, i)))))
  }

  /** Reading the mapped family table back by column name gives the fields of
      the household, in `FamilyColumns` order. */
  lemma FamilyReadBack(f: Frame, i: int)
    requires Valid(f) && MapFamily(f).Ok? && 0 <= i < |f.rows|
    ensures forall k :: 0 <= k < |FamilyColumns| ==>
      At(MapFamily(f).value, i, FamilyColumns[k]) == Encode(HouseholdOf(f, i))[k]
  {
    FamilyColumnsDistinct();
    var m := MapFamily(f).value;
    forall k | 0 <= k < |FamilyColumns|
      ensures At(m, i, FamilyColumns[k]) == Encode(HouseholdOf(f, i))[k]
    {
      IndexOfDistinct(m.columns, k);
    }
  }

  /** Every mapped family row carries the constant person defaults, a water
      flag set exactly for code 1, a sewage flag set exactly for codes 1 and 2,
      and the dwelling type of its wall material. */
  lemma FamilyRowFields(f: Frame, i: int)
    requires Valid(f) && MapFamily(f).Ok? && 0 <= i < |f.rows|
    ensures var m := MapFamily(f).value;
      && At(m, i, Idade) == Some(Int(35)) && At(m, i, Sexo) == Some(Text("F"))
      && At(m, i, Escolaridade) == Some(Int(2)) && At(m, i, SituacaoTrabalho) == Some(Int(0))
      && At(m, i, PossuiDeficiencia) == Some(Int(0))
      && (At(m, i, AcessoAgua) == Some(Int(1)) <==> NumEq(At(f, i, CodAgua), 1.0))
      && (At(m, i, AcessoEsgoto) == Some(Int(1)) <==> NumEq(At(f, i, CodEsgoto), 1.0) || NumEq(At(f, i, CodEsgoto), 2.0))
      && At(m, i, TipoMoradia) == Some(Int(Material(At(f, i, CodMaterial))))
  {
    FamilyReadBack(f, i);
    FamilyRowPerson(f, i);
    FamilyRowWater(f, i);
    FamilyRowSewage(f, i);
    FamilyRowDwelling(f, i);
  }

  /** The constant person fields of a mapped family row. */
  lemma FamilyRowPerson(f: Frame, i: int)
    requires Valid(f) && MapFamily(f).Ok? && 0 <= i < |f.rows|
    requires forall k :: 0 <= k < |FamilyColumns| ==>
      At(MapFamily(f).value, i, FamilyColumns[k]) == Encode(HouseholdOf(f, i))[k]
    ensures var m := MapFamily(f).value;
      && At(m, i, Idade) == Some(Int(35)) && At(m, i, Sexo) == Some(Text("F"))
      && At(m, i, Escolaridade) == Some(Int(2)) && At(m, i, SituacaoTrabalho) == Some(Int(0))
      && At(m, i, PossuiDeficiencia) == Some(Int(0))
  {
    FamilyDefaults(HouseholdOf(f, i));
    assert FamilyColumns[11] == Idade && FamilyColumns[12] == Sexo && FamilyColumns[13] == Escolaridade;
    assert FamilyColumns[14] == SituacaoTrabalho && FamilyColumns[15] == PossuiDeficiencia;
  }

  /** The water flag of a mapped family row. */
  lemma FamilyRowWater(f: Frame, i: int)
    requires Valid(f) && MapFamily(f).Ok? && 0 <= i < |f.rows|
    requires forall k :: 0 <= k < |FamilyColumns| ==>
      At(MapFamily(f).value, i, FamilyColumns[k]) == Encode(HouseholdOf(f, i))[k]
    ensures At(MapFamily(f).value, i, AcessoAgua) == Some(Int(1)) <==> NumEq(At(f, i, CodAgua), 1.0)
  {
    FamilyDefaults(HouseholdOf(f, i));
    assert FamilyColumns[5] == AcessoAgua;
  }

  /** The sewage flag of a mapped family row. */
  lemma FamilyRowSewage(f: Frame, i: int)
    requires Valid(f) && MapFamily(f).Ok? && 0 <= i < |f.rows|
    requires forall k :: 0 <= k < |FamilyColumns| ==>
      At(MapFamily(f).value, i, FamilyColumns[k]) == Encode(HouseholdOf(f, i))[k]
    ensures At(MapFamily(f).value, i, AcessoEsgoto) == Some(Int(1)) <==> NumEq(At(f, i, CodEsgoto), 1.0) || NumEq(At(f, i, CodEsgoto), 2.0)
  {
    FamilyDefaults(HouseholdOf(f, i));
    assert FamilyColumns[6] == AcessoEsgoto;
  }

  /** The dwelling type of a mapped family row. */
  lemma FamilyRowDwelling(f: Frame, i: int)
    requires Valid(f) && MapFamily(f).Ok? && 0 <= i < |f.rows|
    requires forall k :: 0 <= k < |FamilyColumns| ==>
      At(MapFamily(f).value, i, FamilyColumns[k]) == Encode(HouseholdOf(f, i))[k]
    ensures At(MapFamily(f).value, i, TipoMoradia) == Some(Int(Material(At(f, i, CodMaterial))))
  {
    FamilyDefaults(HouseholdOf(f, i));
    assert FamilyColumns[7] == TipoMoradia;
  }

  /** The fields of one encoded household. */
  lemma FamilyDefaults(h: Household)
    ensures var e := Encode(h);
      && e[5] == Bit(h.agua) && e[6] == Bit(h.esgoto) && e[7] == Some(Int(h.moradia))
      && e[11] == Some(Int(35)) && e[12] == Some(Text("F")) && e[13] == Some(Int(2))
      && e[14] == Some(Int(0)) && e[15] == Some(Int(0))
  {
  }

  // ---------------------------------------------------------------------------
  // CadUnico person file

  const Parentesco := "cod_parentesco_rf_pessoa"
  const CodFamilia := "cod_familia"

  /** Person-file columns and the names they are copied under, in order. */
  const PersonMapping: seq<(string, string)> := [
    ("cod_familiar_fam", CodFamilia), ("idade_pessoa", Idade), ("cod_sexo_pessoa", Sexo),
    ("cod_curso_frequenta_pessoa", Escolaridade), ("cod_trabalho_12_meses_pessoa", SituacaoTrabalho)
  ]

  /** The target names have pairwise different lengths. */
  lemma PersonTargets()
    ensures |PersonMapping| == 5
    ensures forall m, n :: 0 <= m < n < |PersonMapping| ==> PersonMapping[m].1 != PersonMapping[n].1
  {
    assert |CodFamilia| == 11 && |Idade| == 5 && |Sexo| == 4 && |Escolaridade| == 12 && |SituacaoTrabalho| == 17;
  }

  /** The responsible persons: the rows whose kinship code is 1 when the file
      has that column, every row otherwise. */
  function Responsible(f: Frame): (r: Frame)
    requires Valid(f)
    ensures Valid(r) && r.columns == f.columns && |r.rows| <= |f.rows|
    ensures !Has(f, Parentesco) ==> r == f
    ensures Has(f, Parentesco) ==> forall i :: 0 <= i < |r.rows| ==> NumEq(At(r, i, Parentesco), 1.0)
    ensures Has(f, Parentesco) ==> forall row :: row in f.rows ==>
      (row in r.rows <==> NumEq(CellOf(row, IndexOf(f.columns, Parentesco)), 1.0))
  {
    if Has(f, Parentesco) then Where(f, Parentesco, c => NumEq(c, 1.0)) else f
  }

  /** `map({1: 'M', 2: 'F'}).fillna('M')`. */
  const SexCodes: seq<(real, Value)> := [(1.0, Text("M")), (2.0, Text("F"))]

  function SexCell(c: Cell): (r: Cell)
    ensures r == Some(Text("F")) || r == Some(Text("M"))
    ensures r == Some(Text("F")) <==> NumEq(c, 2.0)
  {
    FillCell(MapCode(c, SexCodes), Some(Text("M")))
  }

  /** `map({1: 2, 2: 0}).fillna(0).astype(int)`: worked in the last year is 2. */
  const WorkCodes: seq<(real, Value)> := [(1.0, Int(2)), (2.0, Int(0))]

  function WorkCell(c: Cell): (r: Cell)
    ensures r == Some(Int(2)) || r == Some(Int(0))
    ensures r == Some(Int(2)) <==> NumEq(c, 1.0)
  {
    FillCell(MapCode(c, WorkCodes), Some(Int(0)))
  }

  /** The copied cell under its target name: sex and work are recoded, the
      rest is copied as it is. */
  function PersonCell(target: string, c: Cell): Cell {
    if target == Sexo then SexCell(c)
    else if target == SituacaoTrabalho then WorkCell(c)
    else c
  }

  /** The positions from `k` on, in increasing order, of the mapping entries
      whose source column is in `cols`. */
  function Picked(cols: seq<string>, k: nat): (ks: seq<nat>)
    requires k <= |PersonMapping|
    ensures forall j :: 0 <= j < |ks| ==> k <= ks[j] < |PersonMapping| && PersonMapping[ks[j]].0 in cols
    ensures forall j, j' :: 0 <= j < j' < |ks| ==> ks[j] < ks[j']
    ensures forall m :: k <= m < |PersonMapping| && PersonMapping[m].0 in cols ==> m in ks
    decreases |PersonMapping| - k
  {
    if k == |PersonMapping| then []
    else if PersonMapping[k].0 in cols then [k] + Picked(cols, k + 1)
    else Picked(cols, k + 1)
  }

  /** The target names of the mapping entries at positions `ks`. */
  function TargetsOf(ks: seq<nat>): (cols: seq<string>)
    requires forall j :: 0 <= j < |ks| ==> ks[j] < |PersonMapping|
    ensures |cols| == |ks| && forall j :: 0 <= j < |ks| ==> cols[j] == PersonMapping[ks[j]].1
  {
    seq(|ks|, j requires 0 <= j < |ks| => PersonMapping[ks[j]].1)
  }

  lemma TargetsDistinct(ks: seq<nat>)
    requires forall j :: 0 <= j < |ks| ==> ks[j] < |PersonMapping|
    requires forall j, j' :: 0 <= j < j' < |ks| ==> ks[j] < ks[j']
    ensures Distinct(TargetsOf(ks))
  {
    PersonTargets();
  }

  /** A target name is picked exactly when its source column is present, and
      only target names are picked. */
  lemma PickedTargets(cols: seq<string>)
    ensures forall m :: 0 <= m < |PersonMapping| ==>
      (PersonMapping[m].1 in TargetsOf(Picked(cols, 0)) <==> PersonMapping[m].0 in cols)
    ensures forall c :: c in TargetsOf(Picked(cols, 0)) ==> exists m :: 0 <= m < |PersonMapping| && PersonMapping[m].1 == c
  {
    forall m | 0 <= m < |PersonMapping| ensures PersonMapping[m].1 in TargetsOf(Picked(cols, 0)) <==> PersonMapping[m].0 in cols {
      PickedTarget(cols, m);
    }
  }

  lemma PickedTarget(cols: seq<string>, m: int)
    requires 0 <= m < |PersonMapping|
    ensures PersonMapping[m].1 in TargetsOf(Picked(cols, 0)) <==> PersonMapping[m].0 in cols
  {
    var ks := Picked(cols, 0);
    var ts := TargetsOf(ks);
    if PersonMapping[m].0 in cols {
      var j :| 0 <= j < |ks| && ks[j] == m;
      assert ts[j] == PersonMapping[m].1;
    }
    if PersonMapping[m].1 in ts {
      var j :| 0 <= j < |ks| && ts[j] == PersonMapping[m].1;
      PersonTargets();
      assert ks[j] == m;
    }
  }

  /** `mapear_cadunico_pessoa`: the responsible persons, with each mapped
      column the file has copied under its target name, in mapping order. With
      none of them the result is an empty table with no rows. */
  function MapPerson(f: Frame): (r: Frame)
    requires Valid(f)
    ensures Valid(r)
    ensures forall m :: 0 <= m < |PersonMapping| ==> (Has(r, PersonMapping[m].1) <==> Has(f, PersonMapping[m].0))
    ensures forall c :: Has(r, c) ==> exists m :: 0 <= m < |PersonMapping| && PersonMapping[m].1 == c
    ensures |r.rows| == if r.columns == [] then 0 else |Responsible(f).rows|
  {
    var resp := Responsible(f);
    var ks := Picked(f.columns, 0);
    var cols := TargetsOf(ks);
    var n := if |ks| == 0 then 0 else |resp.rows|;
    TargetsDistinct(ks);
    PickedTargets(f.columns);
    Frame(cols, seq(n, i requires 0 <= i < n => PersonRow(resp, i, ks)))
  }

  function PersonRow(resp: Frame, i: int, ks: seq<nat>): (row: Row)
    requires 0 <= i < |resp.rows| && forall j :: 0 <= j < |ks| ==> ks[j] < |PersonMapping|
    ensures |row| == |ks|
    ensures forall j :: 0 <= j < |ks| ==> row[j] == PersonCell(PersonMapping[ks[j]].1, At(resp, i, PersonMapping[ks[j]].0))
  {
    seq(|ks|, j requires 0 <= j < |ks| => PersonCell(PersonMapping[ks[j]].1, At(resp, i, PersonMapping[ks[j]].0)))
  }

  /** Reading a mapped column back gives the responsible person's cell, with
      sex and work recoded. */
  lemma PersonReadBack(f: Frame, i: int, m: int)
    requires Valid(f) && 0 <= m < |PersonMapping| && Has(f, PersonMapping[m].0) && 0 <= i < |Responsible(f).rows|
    ensures i < |MapPerson(f).rows|
    ensures At(MapPerson(f), i, PersonMapping[m].1) == PersonCell(PersonMapping[m].1, At(Responsible(f), i, PersonMapping[m].0))
  {
    var resp := Responsible(f);
    var ks := Picked(f.columns, 0);
    var cols := TargetsOf(ks);
    var r := MapPerson(f);
    assert r == Frame(cols, seq(|r.rows|, k requires 0 <= k < |r.rows| => PersonRow(resp, k, ks)));
    var j :| 0 <= j < |ks| && ks[j] == m;
    assert r.rows[i] == PersonRow(resp, i, ks);
    TargetsDistinct(ks);
    IndexOfDistinct(cols, j);
    assert cols[j] == PersonMapping[m].1;
    assert At(r, i, cols[j]) == r.rows[i][j];
  }

  // ---------------------------------------------------------------------------
  // Bolsa Familia payment file

  const ValorParcela := "VALOR PARCELA"
  const ValorBolsa := "valor_bolsa_familia"

  /** One row per payment: the value of column `k`, and the paid flag 1. */
  function Payments(f: Frame, k: nat): (r: Frame)
    requires Valid(f) && k < |f.columns|
    ensures Valid(r) && r.columns == [ValorBolsa, RecebeBolsa] && |r.rows| == |f.rows|
    ensures forall i :: 0 <= i < |f.rows| ==> At(r, i, ValorBolsa) == f.rows[i][k] && At(r, i, RecebeBolsa) == Some(Int(1))
  {
    assert |ValorBolsa| != |RecebeBolsa|;
    Frame([ValorBolsa, RecebeBolsa], seq(|f.rows|, i requires 0 <= i < |f.rows| => [f.rows[i][k], Some(Int(1))]))
  }

  /** `mapear_bolsa_familia` as written: it copies the column named exactly
      `VALOR PARCELA`; without it the flag column is assigned to an empty
      table, which stays without rows. */
  function MapBolsa(f: Frame): (r: Frame)
    requires Valid(f)
    ensures Valid(r)
    ensures Has(f, ValorParcela) ==> r.columns == [ValorBolsa, RecebeBolsa] && |r.rows| == |f.rows|
    ensures Has(f, ValorParcela) ==> forall i :: 0 <= i < |f.rows| ==>
      At(r, i, ValorBolsa) == At(f, i, ValorParcela) && At(r, i, RecebeBolsa) == Some(Int(1))
    ensures !Has(f, ValorParcela) ==> r == Frame([RecebeBolsa], [])
  {
    if Has(f, ValorParcela) then Payments(f, IndexOf(f.columns, ValorParcela))
    else Frame([RecebeBolsa], [])
  }

  /** A header the detector takes for a payment file maps to no payment at
      all: the detector keys on `valor_parcela` with an underscore, the mapper
      on `VALOR PARCELA` with a space. */
  lemma DetectedPaymentsLost()
    ensures var f := Frame(["UF", "VALOR_PARCELA"], [[Some(Text("SP")), Some(Float(600.0))]]);
      Valid(f) && Classify(f.columns) == BolsaFamilia && |f.rows| == 1 && MapBolsa(f).rows == []
  {
    var cols := ["UF", "VALOR_PARCELA"];
    assert Lower(cols[0]) == "uf";
    assert Lower(cols[1]) == "valor_parcela";
    assert LowerAll(cols) == ["uf", "valor_parcela"];
    assert ValorParcela[5] == ' ' && cols[1][5] == '_';
    assert ValorParcela !in cols;
  }

  /** And the header the mapper expects is not recognised as a payment file. */
  lemma PaymentHeaderUnknown()
    ensures Classify(["UF", ValorParcela]) == Desconhecido
  {
    var cols := ["UF", ValorParcela];
    assert Lower(cols[0]) == "uf";
    assert Lower(cols[1]) == "valor parcela";
    assert LowerAll(cols) == ["uf", "valor parcela"];
    assert "valor parcela"[5] != "valor_parcela"[5];
  }

  /** A header naming the payment value: the one the detector keys on, or the
      one the mapper expects. */
  predicate PaymentHeader(c: string) {
    Lower(c) == "valor_parcela" || c == ValorParcela
  }

  function FirstPaymentHeader(cols: seq<string>): (k: Option<nat>)
    ensures k.None? <==> forall j :: 0 <= j < |cols| ==> !PaymentHeader(cols[j])
    ensures k.Some? ==> k.value < |cols| && PaymentHeader(cols[k.value])
    ensures k.Some? ==> forall j :: 0 <= j < k.value ==> !PaymentHeader(cols[j])
  {
    if |cols| == 0 then None
    else if PaymentHeader(cols[0]) then Some(0)
    else match FirstPaymentHeader(cols[1..])
      case None => None
      case Some(k) => Some(k + 1)
  }

  /** The payment mapper with the header mismatch removed: it copies the first
      column the detector or the mapper would recognise. */
  function MapBolsaFixed(f: Frame): (r: Frame)
    requires Valid(f)
    ensures Valid(r)
    ensures Mentions(f.columns, "valor_parcela") ==>
      r.columns == [ValorBolsa, RecebeBolsa] && |r.rows| == |f.rows|
      && forall i :: 0 <= i < |f.rows| ==> At(r, i, RecebeBolsa) == Some(Int(1))
  {
    match FirstPaymentHeader(f.columns)
    case Some(k) => Payments(f, k)
    case None => Frame([RecebeBolsa], [])
  }

  /** Where no header spells `valor_parcela` in any case, the fixed mapper is
      the mapper as written. */
  lemma MapBolsaFixedConservative(f: Frame)
    requires Valid(f) && !Mentions(f.columns, "valor_parcela")
    ensures MapBolsaFixed(f) == MapBolsa(f)
  {
    match FirstPaymentHeader(f.columns)
    case None =>
    case Some(k) =>
      assert f.columns[k] == ValorParcela;
      assert IndexOf(f.columns, ValorParcela) == k;
  }

  /** Every file detected as a payment file keeps one row per payment. */
  lemma DetectedPaymentsKept(f: Frame)
    requires Valid(f) && Classify(f.columns) == BolsaFamilia
    ensures |MapBolsaFixed(f).rows| == |f.rows|
    ensures forall i :: 0 <= i < |f.rows| ==> At(MapBolsaFixed(f), i, RecebeBolsa) == Some(Int(1))
  {
    ClassifyMarks(f.columns);
  }

  // ---------------------------------------------------------------------------
  // Loading, and joining family and person tables

  /** The mapping each kind of file goes through; an unknown file comes back as
      it was read. Only the family mapper can fail, and a payment file goes
      through the payment mapper as written. */
  function MapByKind(f: Frame, kind: Kind): (r: Result<Frame, Error>)
    requires Valid(f)
    ensures r.Err? ==> kind == CadunicoFamilia
    ensures r.Ok? ==> Valid(r.value)
    ensures kind == CadunicoFamilia ==> r == MapFamily(f)
    ensures kind == CadunicoPessoa ==> r == Ok(MapPerson(f))
    ensures kind == BolsaFamilia ==> r == Ok(MapBolsa(f))
    ensures kind == Desconhecido ==> r == Ok(f)
  {
    match kind
    case CadunicoFamilia => MapFamily(f)
    case CadunicoPessoa => Ok(MapPerson(f))
    case BolsaFamilia => Ok(MapBolsa(f))
    case Desconhecido => Ok(f)
  }

  /** `carregar_e_mapear_arquivo`: detect, load the whole file under the
      detected configuration, and map it by kind. `load` stands for the full
      `read_csv`, whose header is the one detection saw. A payment file keeps
      its rows only when its header holds `VALOR PARCELA` itself; otherwise
      the result is the empty table holding only the flag column. */
  function LoadAndMap(read: Config -> Option<seq<string>>, load: Config -> Frame): (r: Result<(Frame, Detection), Error>)
    requires forall c :: Valid(load(c))
    requires forall c :: read(c).Some? ==> load(c).columns == read(c).value
    ensures r.Err? && Detect(read).Err? ==> r.error == UndetectedFormat
    ensures Detect(read).Ok? ==> (r.Err? <==> Detect(read).value.kind == CadunicoFamilia && MapFamily(load(Detect(read).value.config)).Err?)
    ensures r.Ok? ==> Detect(read).Ok? && r.value.1 == Detect(read).value && Valid(r.value.0)
    ensures r.Ok? && r.value.1.kind == Desconhecido ==> r.value.0 == load(r.value.1.config)
    ensures r.Ok? && r.value.1.kind == CadunicoFamilia ==>
      r.value.0.columns == FamilyColumns && |r.value.0.rows| == |load(r.value.1.config).rows|
    ensures r.Ok? && r.value.1.kind == BolsaFamilia && Has(load(r.value.1.config), ValorParcela) ==>
      r.value.0.columns == [ValorBolsa, RecebeBolsa] && |r.value.0.rows| == |load(r.value.1.config).rows|
    ensures r.Ok? && r.value.1.kind == BolsaFamilia && !Has(load(r.value.1.config), ValorParcela) ==>
      r.value.0 == Frame([RecebeBolsa], [])
  {
    var d :- Detect(read);
    LoadMapped(load(d.config), d)
  }

  function LoadMapped(f: Frame, d: Detection): (r: Result<(Frame, Detection), Error>)
    requires Valid(f)
    ensures r.Ok? <==> MapByKind(f, d.kind).Ok?
    ensures r.Ok? ==> r.value == (MapByKind(f, d.kind).value, d) && Valid(r.value.0)
  {
    var m :- MapByKind(f, d.kind);
    Ok((m, d))
  }

  /** The loader with the corrected payment mapper: every file detected as a
      payment file keeps one flagged row per payment. */
  function LoadAndMapFixed(read: Config -> Option<seq<string>>, load: Config -> Frame): (r: Result<(Frame, Detection), Error>)
    requires forall c :: Valid(load(c))
    requires forall c :: read(c).Some? ==> load(c).columns == read(c).value
    ensures Detect(read).Err? ==> r == Err(UndetectedFormat)
    ensures Detect(read).Ok? && Detect(read).value.kind == BolsaFamilia ==>
      && r.Ok? && r.value.1 == Detect(read).value
      && r.value.0.columns == [ValorBolsa, RecebeBolsa] && |r.value.0.rows| == |load(r.value.1.config).rows|
      && forall i :: 0 <= i < |r.value.0.rows| ==> At(r.value.0, i, RecebeBolsa) == Some(Int(1))
  {
    match Detect(read)
    case Err(e) => Err(e)
    case Ok(d) =>
      var f := load(d.config);
      if d.kind == BolsaFamilia then
        var j :| FirstReadable(read, j) && d.config == Configs[j] && d.columns == read(Configs[j]).value;
        assert f.columns == d.columns;
        PaymentsLoaded(f, d)
      else LoadMapped(f, d)
  }

  /** A file detected as payments, mapped by the corrected payment mapper. */
  function PaymentsLoaded(f: Frame, d: Detection): (r: Result<(Frame, Detection), Error>)
    requires Valid(f) && Classify(f.columns) == BolsaFamilia
    ensures r.Ok? && r.value.1 == d
    ensures r.value.0.columns == [ValorBolsa, RecebeBolsa] && |r.value.0.rows| == |f.rows|
    ensures forall i :: 0 <= i < |r.value.0.rows| ==> At(r.value.0, i, RecebeBolsa) == Some(Int(1))
  {
    DetectedPaymentsKept(f);
    Ok((MapBolsaFixed(f), d))
  }

  /** The correction touches payment files only: every other file, and every
      detection failure, is loaded and mapped as before. */
  lemma FixedLoaderElsewhere(read: Config -> Option<seq<string>>, load: Config -> Frame)
    requires forall c :: Valid(load(c))
    requires forall c :: read(c).Some? ==> load(c).columns == read(c).value
    requires Detect(read).Ok? ==> Detect(read).value.kind != BolsaFamilia
    ensures LoadAndMapFixed(read, load) == LoadAndMap(read, load)
  {
  }

  /** With an empty left suffix the left names keep their spelling. */
  lemma LeftNamesKept(lcols: seq<string>, rcols: seq<string>, rsuf: string)
    ensures OutColumns(lcols, rcols, "", rsuf)[..|lcols|] == lcols
  {
    var out := OutColumns(lcols, rcols, "", rsuf);
    forall k | 0 <= k < |lcols| ensures out[k] == lcols[k] {
      assert lcols[k] + "" == lcols[k];
    }
  }

  /** `mesclar_familia_pessoa`: without a family code on the person side the
      family table comes back unchanged; otherwise a left join of the family
      municipality code against the person family code. Left names keep their
      spelling, clashing person names take `_pessoa`, and every family row is
      kept, repeated once per matching person. */
  function MergeFamilyPerson(fam: Frame, pes: Frame): (r: Result<Frame, Error>)
    requires Valid(fam) && Valid(pes)
    ensures !Has(pes, CodFamilia) ==> r == Ok(fam)
    ensures Has(pes, CodFamilia) && !Has(fam, CodMunicipio) ==> r == Err(MissingColumn(CodMunicipio))
    ensures r.Ok? ==> Valid(r.value) && |r.value.rows| >= |fam.rows|
    ensures r.Ok? ==> |fam.columns| <= |r.value.columns| && r.value.columns[..|fam.columns|] == fam.columns
    ensures r.Ok? && Has(pes, CodFamilia) ==>
      Prefixes(r.value.rows, |fam.columns|) == Expand(fam.rows, IndexOf(fam.columns, CodMunicipio), pes.rows, IndexOf(pes.columns, CodFamilia), LeftJoin)
  {
    if !Has(pes, CodFamilia) then Ok(fam)
    else if !Has(fam, CodMunicipio) then Err(MissingColumn(CodMunicipio))
    else
      LeftTotalCovers(fam.rows, IndexOf(fam.columns, CodMunicipio), pes.rows, IndexOf(pes.columns, CodFamilia));
      LeftNamesKept(fam.columns, RightColumns(pes.columns, CodFamilia, false), "_pessoa");
      Merge(fam, pes, CodMunicipio, CodFamilia, LeftJoin, "", "_pessoa")
  }
}
