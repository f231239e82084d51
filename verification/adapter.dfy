/** The real-data adapter (`AdaptadorDadosReais`): code tables for the
    CadUnico person and family extracts, the reduction of the person extract to
    one row per reference person, and the inner join that assembles the household
    table. Its tables differ from those of the government-file mapper, and are
    kept apart on purpose: sewage counts only the collecting network, disability
    is "any code but 1", and having worked maps to 1 rather than 2. */
module RealData {
  import opened Wrappers
  import opened Seqs
  import opened Frames
  import opened Features
  import opened Missing
  import opened Joins
  import opened GovMapper

  // ---------------------------------------------------------------------------
  // Code tables

  /** `transformar_sexo`: 1 is "M", 2 is "F", anything else NaN. */
  function SexOf(c: Cell): (r: Cell)
    ensures r == Some(Text("M")) <==> NumEq(c, 1.0)
    ensures r == Some(Text("F")) <==> NumEq(c, 2.0)
    ensures r.None? <==> !NumEq(c, 1.0) && !NumEq(c, 2.0)
  {
    MapCode(c, SexCodes)
  }

  predicate IsOne(x: real) { x == 1.0 }

  /** `transformar_agua` and `transformar_esgoto`: 1 exactly for code 1. */
  function ServedBy(c: Cell): (r: Cell)
    ensures r == Some(Int(0)) || r == Some(Int(1))
    ensures r == Some(Int(1)) <==> NumEq(c, 1.0)
  {
    FlagCell(c, IsOne)
  }

  /** `transformar_deficiencia`: code 1 means no disability; NaN and every
      other value compare unequal to 1 and count as a disability. */
  function DisabilityOf(c: Cell): (r: Cell)
    ensures r == Some(Int(0)) || r == Some(Int(1))
    ensures r == Some(Int(0)) <==> NumEq(c, 1.0)
  {
    Some(Int(if Num(c) == Some(1.0) then 0 else 1))
  }

  const AdapterWorkCodes: seq<(real, Value)> := [(1.0, Int(1)), (2.0, Int(0))]

  /** `transformar_trabalho`: having worked is 1, everything else 0. */
  function WorkOf(c: Cell): (r: Cell)
    ensures r == Some(Int(0)) || r == Some(Int(1))
    ensures r == Some(Int(1)) <==> NumEq(c, 1.0)
  {
    FillCell(MapCode(c, AdapterWorkCodes), Some(Int(0)))
  }

  /** Course codes 1 to 8 on the 0 to 5 schooling scale. */
  const SchoolingCodes: seq<(real, Value)> := [
    (1.0, Int(0)), (2.0, Int(0)), (3.0, Int(1)), (4.0, Int(2)),
    (5.0, Int(3)), (6.0, Int(5)), (7.0, Int(2)), (8.0, Int(3))
  ]

  /** `transformar_escolaridade`: the scale value of a known course, 0 for
      anything else. */
  function SchoolingOf(c: Cell): (r: int)
    ensures 0 <= r <= 5
    ensures r == 5 <==> NumEq(c, 6.0)
    ensures (forall k :: 0 <= k < |SchoolingCodes| ==> !NumEq(c, SchoolingCodes[k].0)) ==> r == 0
    ensures forall k :: 0 <= k < |SchoolingCodes| && NumEq(c, SchoolingCodes[k].0) ==> Some(Int(r)) == Some(SchoolingCodes[k].1)
  {
    SchoolingMapped(c);
    match FillCell(MapCode(c, SchoolingCodes), Some(Int(0)))
    case Some(Int(n)) => n
    case _ => 0
  }

  /** The course table has distinct keys, so a matching key decides the code. */
  lemma SchoolingMapped(c: Cell)
    ensures var r := MapCode(c, SchoolingCodes);
      && (r.None? <==> forall k :: 0 <= k < |SchoolingCodes| ==> !NumEq(c, SchoolingCodes[k].0))
      && (forall k :: 0 <= k < |SchoolingCodes| && NumEq(c, SchoolingCodes[k].0) ==> r == Some(SchoolingCodes[k].1))
  {
    var r := MapCode(c, SchoolingCodes);
    if r.Some? {
      var k :| 0 <= k < |SchoolingCodes| && SchoolingCodes[k].0 == Num(c).value && SchoolingCodes[k].1 == r.value;
      SchoolingKeysDistinct();
    }
  }

  lemma SchoolingKeysDistinct()
    ensures forall j, k :: 0 <= j < k < |SchoolingCodes| ==> SchoolingCodes[j].0 < SchoolingCodes[k].0
  {
  }

  // ---------------------------------------------------------------------------
  // Reference persons

  const IdFamilia := "id_familia"
  const CodSexoPessoa := "cod_sexo_pessoa"
  const CodDeficiencia := "cod_deficiencia_memb"
  const CodTrabalhou := "cod_trabalhou_memb"
  const CodCurso := "cod_curso_frequenta_memb"

  /** The person-side columns the aggregation keeps, in order. */
  const PersonColumns: seq<string> := [IdFamilia, Idade, Sexo, Escolaridade, PossuiDeficiencia, SituacaoTrabalho]

  lemma PersonColumnsDistinct()
    ensures Distinct(PersonColumns)
  {
    assert |IdFamilia| == 10 && |Idade| == 5 && |Sexo| == 4 && |Escolaridade| == 12;
    assert |PossuiDeficiencia| == 18 && |SituacaoTrabalho| == 17;
  }

  /** `df[c] = h(df[src])` for a cell-wise recoding `h`. */
  function Recode(f: Frame, c: string, src: string, h: Cell -> Cell): (g: Frame)
    requires Valid(f)
    ensures Valid(g) && Keeps(f, g, {c}) && (Has(f, c) ==> g.columns == f.columns)
    ensures forall d :: Has(g, d) <==> Has(f, d) || d == c
    ensures forall i :: 0 <= i < |g.rows| ==> At(g, i, c) == h(At(f, i, src))
  {
    SetColumn(f, c, seq(|f.rows|, i requires 0 <= i < |f.rows| => h(At(f, i, src))))
  }

  /** One column assignment `df[target] = h(df[source])`. */
  datatype Recoding = Recoding(target: string, source: string, h: Cell -> Cell)

  function Targets(rs: seq<Recoding>): (ts: seq<string>)
    ensures |ts| == |rs| && forall k :: 0 <= k < |rs| ==> ts[k] == rs[k].target
  {
    seq(|rs|, k requires 0 <= k < |rs| => rs[k].target)
  }

  /** A list of assignments with different targets, none of which overwrites
      the source of another: the order they run in does not matter. A column
      may be recoded in place. */
  predicate Independent(rs: seq<Recoding>) {
    && Distinct(Targets(rs))
    && forall j, k :: 0 <= j < |rs| && 0 <= k < |rs| && j != k ==> rs[j].source != rs[k].target
  }

  /** The assignments in order, each on the table the previous one left. */
  function RecodeAll(f: Frame, rs: seq<Recoding>): (g: Frame)
    requires Valid(f)
    ensures Valid(g) && Keeps(f, g, set k | 0 <= k < |rs| :: rs[k].target)
    ensures forall d :: Has(g, d) <==> Has(f, d) || d in Targets(rs)
    ensures (forall k :: 0 <= k < |rs| ==> Has(f, rs[k].target)) ==> g.columns == f.columns
    decreases |rs|
  {
    if |rs| == 0 then f
    else
      var g1 := Recode(f, rs[0].target, rs[0].source, rs[0].h);
      var g := RecodeAll(g1, rs[1..]);
      RecodeAllStep(f, g1, g, rs);
      g
  }

  lemma RecodeAllStep(f: Frame, g1: Frame, g: Frame, rs: seq<Recoding>)
    requires |rs| > 0
    requires Keeps(f, g1, {rs[0].target}) && Keeps(g1, g, set k | 0 <= k < |rs[1..]| :: rs[1..][k].target)
    requires forall d :: Has(g1, d) <==> Has(f, d) || d == rs[0].target
    requires forall d :: Has(g, d) <==> Has(g1, d) || d in Targets(rs[1..])
    requires (forall k :: 0 <= k < |rs[1..]| ==> Has(g1, rs[1..][k].target)) ==> g.columns == g1.columns
    requires Has(f, rs[0].target) ==> g1.columns == f.columns
    ensures Keeps(f, g, set k | 0 <= k < |rs| :: rs[k].target)
    ensures forall d :: Has(g, d) <==> Has(f, d) || d in Targets(rs)
    ensures (forall k :: 0 <= k < |rs| ==> Has(f, rs[k].target)) ==> g.columns == f.columns
  {
    if forall k :: 0 <= k < |rs| ==> Has(f, rs[k].target) {
      assert Has(f, rs[0].target);
      forall k | 0 <= k < |rs[1..]| ensures Has(g1, rs[1..][k].target) {
        assert rs[1..][k] == rs[k + 1];
      }
    }
    var all := set k | 0 <= k < |rs| :: rs[k].target;
    var rest := set k | 0 <= k < |rs[1..]| :: rs[1..][k].target;
    assert rs[0].target in all;
    forall t | t in rest ensures t in all {
      var k :| 0 <= k < |rs[1..]| && rs[1..][k].target == t;
      assert rs[k + 1].target == t;
    }
    KeepsChain(f, g1, g, {rs[0].target}, rest, all);
    assert Targets(rs) == [rs[0].target] + Targets(rs[1..]);
  }

  /** After all the assignments of an independent list, column `target` of
      assignment `k` holds `h` of its source column as the input had it. */
  lemma {:induction false} RecodeAllReads(f: Frame, rs: seq<Recoding>, k: nat)
    requires Valid(f) && Independent(rs) && k < |rs|
    ensures forall i :: 0 <= i < |RecodeAll(f, rs).rows| ==>
      At(RecodeAll(f, rs), i, rs[k].target) == rs[k].h(At(f, i, rs[k].source))
    decreases |rs|
  {
    var g1 := Recode(f, rs[0].target, rs[0].source, rs[0].h);
    var g := RecodeAll(g1, rs[1..]);
    assert g == RecodeAll(f, rs);
    if k == 0 {
      FirstTargetKept(g1, rs);
    } else {
      RestIndependent(rs);
      RecodeAllReads(g1, rs[1..], k - 1);
      assert rs[1..][k - 1] == rs[k];
      LaterReads(f, g1, g, rs, k);
    }
  }

  lemma LaterReads(f: Frame, g1: Frame, g: Frame, rs: seq<Recoding>, k: nat)
    requires Valid(g1) && Independent(rs) && 0 < k < |rs| && |g.rows| == |g1.rows|
    requires Keeps(f, g1, {rs[0].target}) && forall d :: Has(g1, d) <==> Has(f, d) || d == rs[0].target
    requires forall i :: 0 <= i < |g.rows| ==> At(g, i, rs[k].target) == rs[k].h(At(g1, i, rs[k].source))
    ensures forall i :: 0 <= i < |g.rows| ==> At(g, i, rs[k].target) == rs[k].h(At(f, i, rs[k].source))
  {
    SourceKept(f, g1, rs, k);
  }

  lemma RestIndependent(rs: seq<Recoding>)
    requires Independent(rs) && |rs| > 0
    ensures Independent(rs[1..])
  {
    assert Targets(rs) == [rs[0].target] + Targets(rs[1..]);
    forall a, b | 0 <= a < |rs[1..]| && 0 <= b < |rs[1..]| && a != b ensures rs[1..][a].source != rs[1..][b].target {
      assert rs[a + 1].source != rs[b + 1].target;
    }
  }

  /** The first target is written once and never again. */
  lemma FirstTargetKept(g1: Frame, rs: seq<Recoding>)
    requires Valid(g1) && Independent(rs) && |rs| > 0 && Has(g1, rs[0].target)
    ensures forall i :: 0 <= i < |g1.rows| ==> At(RecodeAll(g1, rs[1..]), i, rs[0].target) == At(g1, i, rs[0].target)
  {
    var rest := set j | 0 <= j < |rs[1..]| :: rs[1..][j].target;
    assert Targets(rs) == [rs[0].target] + Targets(rs[1..]);
    forall j | 0 <= j < |rs[1..]| ensures rs[1..][j].target != rs[0].target {
      assert Targets(rs)[j + 1] != Targets(rs)[0];
    }
    Through(g1, RecodeAll(g1, rs[1..]), rest, rs[0].target);
  }

  /** A later assignment's source is not the first target, so it reads the same
      before and after the first assignment. */
  lemma SourceKept(f: Frame, g1: Frame, rs: seq<Recoding>, k: nat)
    requires Independent(rs) && 0 < k < |rs|
    requires Keeps(f, g1, {rs[0].target}) && forall d :: Has(g1, d) <==> Has(f, d) || d == rs[0].target
    ensures forall i :: 0 <= i < |g1.rows| ==> At(g1, i, rs[k].source) == At(f, i, rs[k].source)
  {
    var s := rs[k].source;
    assert s != rs[0].target;
    if s in f.columns {
      Through(f, g1, {rs[0].target}, s);
    } else {
      assert !Has(g1, s);
    }
  }

  /** A column outside the rewritten set reads the same after the rewrite. */
  lemma Through(a: Frame, b: Frame, e: set<string>, c: string)
    requires Keeps(a, b, e) && c in a.columns && c !in e
    ensures c in b.columns && forall i :: 0 <= i < |b.rows| ==> At(b, i, c) == At(a, i, c)
  {
    assert a.columns <= b.columns;
  }

  /** `c => Some(Int(SchoolingOf(c)))`, the course column recoded in place. */
  function SchoolingCell(c: Cell): Cell {
    Some(Int(SchoolingOf(c)))
  }

  /** The four person fields the aggregation writes, in its order. */
  const PersonRecodings: seq<Recoding> := [
    Recoding(Sexo, CodSexoPessoa, SexOf),
    Recoding(PossuiDeficiencia, CodDeficiencia, DisabilityOf),
    Recoding(SituacaoTrabalho, CodTrabalhou, WorkOf),
    Recoding(Escolaridade, CodCurso, SchoolingCell)
  ]

  lemma PersonRecodingsIndependent()
    ensures Independent(PersonRecodings)
    ensures Targets(PersonRecodings) == [Sexo, PossuiDeficiencia, SituacaoTrabalho, Escolaridade]
  {
    assert |CodSexoPessoa| == 15 && |CodDeficiencia| == 20 && |CodTrabalhou| == 18 && |CodCurso| == 24;
    assert |Sexo| == 4 && |PossuiDeficiencia| == 18 && |SituacaoTrabalho| == 17 && |Escolaridade| == 12;
    assert CodTrabalhou[0] == 'c' && PossuiDeficiencia[0] == 'p';
  }

  /** The four recoded person fields written over the reference persons. */
  function Recoded(resp: Frame): (g: Frame)
    requires Valid(resp)
    ensures Valid(g) && Keeps(resp, g, {Sexo, PossuiDeficiencia, SituacaoTrabalho, Escolaridade})
    ensures forall d :: Has(g, d) <==> Has(resp, d) || d in {Sexo, PossuiDeficiencia, SituacaoTrabalho, Escolaridade}
    ensures forall i :: 0 <= i < |g.rows| ==> At(g, i, Sexo) == SexOf(At(resp, i, CodSexoPessoa))
    ensures forall i :: 0 <= i < |g.rows| ==> At(g, i, PossuiDeficiencia) == DisabilityOf(At(resp, i, CodDeficiencia))
    ensures forall i :: 0 <= i < |g.rows| ==> At(g, i, SituacaoTrabalho) == WorkOf(At(resp, i, CodTrabalhou))
    ensures forall i :: 0 <= i < |g.rows| ==> At(g, i, Escolaridade) == Some(Int(SchoolingOf(At(resp, i, CodCurso))))
  {
    PersonRecodingsIndependent();
    var g := RecodeAll(resp, PersonRecodings);
    RecodeAllReads(resp, PersonRecodings, 0);
    RecodeAllReads(resp, PersonRecodings, 1);
    RecodeAllReads(resp, PersonRecodings, 2);
    RecodeAllReads(resp, PersonRecodings, 3);
    assert (set k | 0 <= k < |PersonRecodings| :: PersonRecodings[k].target) == {Sexo, PossuiDeficiencia, SituacaoTrabalho, Escolaridade} by {
      assert PersonRecodings[0].target == Sexo && PersonRecodings[1].target == PossuiDeficiencia;
      assert PersonRecodings[2].target == SituacaoTrabalho && PersonRecodings[3].target == Escolaridade;
    }
    g
  }

  /** The recoded reference persons cut down to the six kept columns. */
  function Reduced(p: Frame): (r: Result<Frame, Error>)
    requires Valid(p)
    requires Has(p, CodSexoPessoa) && Has(p, CodDeficiencia) && Has(p, CodTrabalhou) && Has(p, CodCurso)
    ensures r.Ok? <==> Has(p, IdFamilia) && Has(p, Idade)
    ensures r.Ok? ==> Valid(r.value) && r.value.columns == PersonColumns && |r.value.rows| == |p.rows|
    ensures r.Ok? ==> forall i :: 0 <= i < |r.value.rows| ==>
      && At(r.value, i, IdFamilia) == At(p, i, IdFamilia)
      && At(r.value, i, Idade) == At(p, i, Idade)
      && At(r.value, i, Sexo) == SexOf(At(p, i, CodSexoPessoa))
      && At(r.value, i, PossuiDeficiencia) == DisabilityOf(At(p, i, CodDeficiencia))
      && At(r.value, i, SituacaoTrabalho) == WorkOf(At(p, i, CodTrabalhou))
      && At(r.value, i, Escolaridade) == Some(Int(SchoolingOf(At(p, i, CodCurso))))
  {
    var g := Recoded(p);
    PersonColumnsDistinct();
    IdAndAgeKept(p, g);
    PersonColumnsPresent(p, g);
    var r := Select(g, PersonColumns);
    SelectedCells(p, g, r);
    r
  }

  lemma PersonColumnsPresent(p: Frame, g: Frame)
    requires forall d :: Has(g, d) <==> Has(p, d) || d in {Sexo, PossuiDeficiencia, SituacaoTrabalho, Escolaridade}
    ensures (forall c :: c in PersonColumns ==> Has(g, c)) <==> Has(p, IdFamilia) && Has(p, Idade)
  {
    PersonColumnsDistinct();
    assert PersonColumns[0] == IdFamilia && PersonColumns[1] == Idade;
  }

  lemma SelectedCells(p: Frame, g: Frame, r: Result<Frame, Error>)
    requires |g.rows| == |p.rows|
    requires forall i :: 0 <= i < |g.rows| ==> At(g, i, Sexo) == SexOf(At(p, i, CodSexoPessoa))
    requires forall i :: 0 <= i < |g.rows| ==> At(g, i, PossuiDeficiencia) == DisabilityOf(At(p, i, CodDeficiencia))
    requires forall i :: 0 <= i < |g.rows| ==> At(g, i, SituacaoTrabalho) == WorkOf(At(p, i, CodTrabalhou))
    requires forall i :: 0 <= i < |g.rows| ==> At(g, i, Escolaridade) == Some(Int(SchoolingOf(At(p, i, CodCurso))))
    requires Has(p, IdFamilia) ==> forall i :: 0 <= i < |g.rows| ==> At(g, i, IdFamilia) == At(p, i, IdFamilia)
    requires Has(p, Idade) ==> forall i :: 0 <= i < |g.rows| ==> At(g, i, Idade) == At(p, i, Idade)
    requires r.Ok? ==> Has(p, IdFamilia) && Has(p, Idade) && |r.value.rows| == |g.rows|
    requires r.Ok? ==> forall i, c :: 0 <= i < |g.rows| && c in PersonColumns ==> At(r.value, i, c) == At(g, i, c)
    ensures r.Ok? ==> forall i :: 0 <= i < |r.value.rows| ==>
      && At(r.value, i, IdFamilia) == At(p, i, IdFamilia)
      && At(r.value, i, Idade) == At(p, i, Idade)
      && At(r.value, i, Sexo) == SexOf(At(p, i, CodSexoPessoa))
      && At(r.value, i, PossuiDeficiencia) == DisabilityOf(At(p, i, CodDeficiencia))
      && At(r.value, i, SituacaoTrabalho) == WorkOf(At(p, i, CodTrabalhou))
      && At(r.value, i, Escolaridade) == Some(Int(SchoolingOf(At(p, i, CodCurso))))
  {
    assert PersonColumns[0] == IdFamilia && PersonColumns[1] == Idade && PersonColumns[2] == Sexo;
    assert PersonColumns[3] == Escolaridade && PersonColumns[4] == PossuiDeficiencia && PersonColumns[5] == SituacaoTrabalho;
  }

  /** The family id and the age pass through the recoding. */
  lemma IdAndAgeKept(p: Frame, g: Frame)
    requires Keeps(p, g, {Sexo, PossuiDeficiencia, SituacaoTrabalho, Escolaridade})
    ensures Has(p, IdFamilia) ==> forall i :: 0 <= i < |g.rows| ==> At(g, i, IdFamilia) == At(p, i, IdFamilia)
    ensures Has(p, Idade) ==> forall i :: 0 <= i < |g.rows| ==> At(g, i, Idade) == At(p, i, Idade)
  {
    PersonColumnsDistinct();
    if Has(p, IdFamilia) {
      Through(p, g, {Sexo, PossuiDeficiencia, SituacaoTrabalho, Escolaridade}, IdFamilia);
    }
    if Has(p, Idade) {
      Through(p, g, {Sexo, PossuiDeficiencia, SituacaoTrabalho, Escolaridade}, Idade);
    }
  }

  /** `agregar_pessoa_para_familia`: keep every person whose kinship code is 1
      (no de-duplication), recode sex, disability, work and schooling, and keep
      the six listed columns. The kinship and code columns are read
      unconditionally, so each must exist; so must the family id and the age. */
  function Aggregate(pes: Frame): (r: Result<Frame, Error>)
    requires Valid(pes)
    ensures r.Ok? <==> (Has(pes, Parentesco) && Has(pes, CodSexoPessoa) && Has(pes, CodDeficiencia)
      && Has(pes, CodTrabalhou) && Has(pes, CodCurso) && Has(pes, IdFamilia) && Has(pes, Idade))
    ensures !Has(pes, Parentesco) ==> r == Err(MissingColumn(Parentesco))
    ensures r.Ok? ==> Valid(r.value) && r.value.columns == PersonColumns && |r.value.rows| == |Responsible(pes).rows|
    ensures r.Ok? ==> forall i :: 0 <= i < |r.value.rows| ==>
      var p := Responsible(pes);
      && NumEq(At(p, i, Parentesco), 1.0)
      && At(r.value, i, IdFamilia) == At(p, i, IdFamilia)
      && At(r.value, i, Idade) == At(p, i, Idade)
      && At(r.value, i, Sexo) == SexOf(At(p, i, CodSexoPessoa))
      && At(r.value, i, PossuiDeficiencia) == DisabilityOf(At(p, i, CodDeficiencia))
      && At(r.value, i, SituacaoTrabalho) == WorkOf(At(p, i, CodTrabalhou))
      && At(r.value, i, Escolaridade) == Some(Int(SchoolingOf(At(p, i, CodCurso))))
  {
    if !Has(pes, Parentesco) then Err(MissingColumn(Parentesco))
    else
      var p := Responsible(pes);
      var _ :- Require(p, [CodSexoPessoa, CodDeficiencia, CodTrabalhou, CodCurso], []);
      Reduced(p)
  }

  // ---------------------------------------------------------------------------
  // Households

  const CodEspecie := "cod_especie_domic_fam"

  /** Families inner-joined with their reference persons on `id_familia`:
      a family without one disappears, a family with `k` appears `k` times. */
  function Joined(fam: Frame, pes: Frame): (r: Result<Frame, Error>)
    requires Valid(fam) && Valid(pes)
    ensures Aggregate(pes).Err? ==> r == Err(Aggregate(pes).error)
    ensures Aggregate(pes).Ok? && !Has(fam, IdFamilia) ==> r == Err(MissingColumn(IdFamilia))
    ensures r.Ok? ==> Aggregate(pes).Ok? && Has(fam, IdFamilia) && Valid(r.value)
    ensures r.Ok? ==> |fam.columns| <= |r.value.columns|
    ensures r.Ok? ==>
      var kf := IndexOf(fam.columns, IdFamilia);
      var resp := Aggregate(pes).value.rows;
      && |r.value.rows| == Total(fam.rows, kf, resp, 0, InnerJoin)
      && |r.value.rows| + |Unmatched(fam.rows, kf, resp, 0)| == Total(fam.rows, kf, resp, 0, LeftJoin)
      && Prefixes(r.value.rows, |fam.columns|) == Expand(fam.rows, kf, resp, 0, InnerJoin)
  {
    var agg :- Aggregate(pes);
    if !Has(fam, IdFamilia) then Err(MissingColumn(IdFamilia))
    else
      assert IndexOf(agg.columns, IdFamilia) == 0;
      InnerDropsUnmatched(fam.rows, IndexOf(fam.columns, IdFamilia), agg.rows, 0);
      Merge(fam, agg, IdFamilia, IdFamilia, InnerJoin, "_x", "_y")
  }

  /** `cod_especie_domic_fam.fillna(1).astype(int)` on one cell. */
  function DwellingCell(c: Cell): (r: Cell)
    ensures r.Some? && r.value.Int?
    ensures Num(c).None? ==> r == Some(Int(1))
    ensures Num(c).Some? && Num(c).value >= 0.0 ==> r.value.i as real <= Num(c).value < r.value.i as real + 1.0
    ensures Num(c).Some? && Num(c).value < 0.0 ==> r.value.i as real - 1.0 < Num(c).value <= r.value.i as real
  {
    Some(Int(Trunc(NumOr(c, 1.0))))
  }

  function Copy(c: Cell): Cell { c }

  /** The family fields `juntar_dados` derives after the join, in its order. */
  const FamilyRecodings: seq<Recoding> := [
    Recoding(AcessoAgua, CodAgua, ServedBy),
    Recoding(AcessoEsgoto, CodEsgoto, ServedBy),
    Recoding(TipoMoradia, CodEspecie, DwellingCell),
    Recoding(RecebeBolsa, MarcPbf, Copy)
  ]

  lemma FamilyRecodingsIndependent()
    ensures Independent(FamilyRecodings)
    ensures Targets(FamilyRecodings) == [AcessoAgua, AcessoEsgoto, TipoMoradia, RecebeBolsa]
  {
    assert |CodAgua| == 25 && |CodEsgoto| == 29 && |CodEspecie| == 21 && |MarcPbf| == 8;
    assert |AcessoAgua| == 11 && |AcessoEsgoto| == 13 && |TipoMoradia| == 12 && |RecebeBolsa| == 20;
  }

  /** `g` is `m` with the four family fields written from their codes. */
  ghost predicate FieldsWritten(m: Frame, g: Frame) {
    && Keeps(m, g, {AcessoAgua, AcessoEsgoto, TipoMoradia, RecebeBolsa})
    && (forall d :: Has(g, d) <==> Has(m, d) || d in {AcessoAgua, AcessoEsgoto, TipoMoradia, RecebeBolsa})
    && forall i :: 0 <= i < |g.rows| ==>
      && At(g, i, AcessoAgua) == ServedBy(At(m, i, CodAgua))
      && At(g, i, AcessoEsgoto) == ServedBy(At(m, i, CodEsgoto))
      && At(g, i, TipoMoradia) == DwellingCell(At(m, i, CodEspecie))
      && At(g, i, RecebeBolsa) == At(m, i, MarcPbf)
  }

  /** Water, sewage, dwelling type and the Bolsa Familia mark; each source
      column is read unconditionally, and the dwelling code is cast to an
      integer. */
  function FamilyFields(m: Frame): (r: Result<Frame, Error>)
    requires Valid(m)
    ensures r.Ok? <==> (Has(m, CodAgua) && Has(m, CodEsgoto) && Has(m, CodEspecie) && NumericColumn(m, CodEspecie) && Has(m, MarcPbf))
    ensures r.Ok? ==> Valid(r.value) && FieldsWritten(m, r.value)
  {
    var _ :- Require(m, [CodAgua, CodEsgoto, CodEspecie], [CodEspecie]);
    var _ :- Require(m, [MarcPbf], []);
    FamilyWritten(m);
    Ok(RecodeAll(m, FamilyRecodings))
  }

  lemma FamilyWritten(m: Frame)
    requires Valid(m) && Has(m, CodAgua) && Has(m, CodEsgoto) && Has(m, CodEspecie) && Has(m, MarcPbf)
    ensures Valid(RecodeAll(m, FamilyRecodings)) && FieldsWritten(m, RecodeAll(m, FamilyRecodings))
  {
    FamilyKept(m);
    FamilyReads(m);
  }

  lemma FamilyKept(m: Frame)
    requires Valid(m)
    ensures var g := RecodeAll(m, FamilyRecodings);
      && Keeps(m, g, {AcessoAgua, AcessoEsgoto, TipoMoradia, RecebeBolsa})
      && forall d :: Has(g, d) <==> Has(m, d) || d in {AcessoAgua, AcessoEsgoto, TipoMoradia, RecebeBolsa}
  {
    FamilyTargets();
    FamilyColumns(m);
  }

  lemma FamilyColumns(m: Frame)
    requires Valid(m)
    ensures var g := RecodeAll(m, FamilyRecodings);
      forall d :: Has(g, d) <==> Has(m, d) || d in {AcessoAgua, AcessoEsgoto, TipoMoradia, RecebeBolsa}
  {
    assert Targets(FamilyRecodings) == [AcessoAgua, AcessoEsgoto, TipoMoradia, RecebeBolsa];
  }

  lemma FamilyReads(m: Frame)
    requires Valid(m)
    ensures var g := RecodeAll(m, FamilyRecodings);
      forall i :: 0 <= i < |g.rows| ==>
        && At(g, i, AcessoAgua) == ServedBy(At(m, i, CodAgua))
        && At(g, i, AcessoEsgoto) == ServedBy(At(m, i, CodEsgoto))
        && At(g, i, TipoMoradia) == DwellingCell(At(m, i, CodEspecie))
        && At(g, i, RecebeBolsa) == At(m, i, MarcPbf)
  {
    var g := RecodeAll(m, FamilyRecodings);
    FamilyRead(m, 0);
    assert FamilyRecodings[0] == Recoding(AcessoAgua, CodAgua, ServedBy);
    FamilyRead(m, 1);
    assert FamilyRecodings[1] == Recoding(AcessoEsgoto, CodEsgoto, ServedBy);
    FamilyRead(m, 2);
    assert FamilyRecodings[2] == Recoding(TipoMoradia, CodEspecie, DwellingCell);
    FamilyRead(m, 3);
    assert FamilyRecodings[3] == Recoding(RecebeBolsa, MarcPbf, Copy);
    forall i | 0 <= i < |g.rows|
      ensures At(g, i, RecebeBolsa) == At(m, i, MarcPbf)
    {
      assert At(g, i, RecebeBolsa) == Copy(At(m, i, MarcPbf));
    }
  }

  lemma FamilyRead(m: Frame, k: nat)
    requires Valid(m) && k < |FamilyRecodings|
    ensures var g := RecodeAll(m, FamilyRecodings); var r := FamilyRecodings[k];
      forall i :: 0 <= i < |g.rows| ==> At(g, i, r.target) == r.h(At(m, i, r.source))
  {
    FamilyRecodingsIndependent();
    RecodeAllReads(m, FamilyRecodings, k);
  }

  lemma FamilyTargets()
    ensures (set k | 0 <= k < |FamilyRecodings| :: FamilyRecodings[k].target) == {AcessoAgua, AcessoEsgoto, TipoMoradia, RecebeBolsa}
  {
    assert FamilyRecodings[0].target == AcessoAgua && FamilyRecodings[1].target == AcessoEsgoto;
    assert FamilyRecodings[2].target == TipoMoradia && FamilyRecodings[3].target == RecebeBolsa;
  }

  /** The column of `f` that carries the name `dst` once `src` is renamed to
      it: `src` when present, otherwise a `dst` that was already there. */
  function Origin(f: Frame, src: string, dst: string): string {
    if Has(f, src) then src else dst
  }

  /** `h` is `g` after one `Rename(g, src, dst)`. */
  ghost predicate RenameDone(g: Frame, h: Frame, src: string, dst: string) {
    && h.rows == g.rows
    && (forall i :: 0 <= i < |g.rows| ==> At(h, i, dst) == At(g, i, Origin(g, src, dst)))
    && (forall d :: d != src && d != dst ==> (Has(h, d) <==> Has(g, d)))
    && (forall i, d :: 0 <= i < |g.rows| && d != src && d != dst ==> At(h, i, d) == At(g, i, d))
    && (Has(h, dst) <==> Has(g, src) || Has(g, dst))
  }

  lemma RenameReads(f: Frame, src: string, dst: string)
    requires Valid(f)
    ensures var r := Rename(f, src, dst); r.Ok? ==> RenameDone(f, r.value, src, dst)
  {
  }

  /** `h` is `g` with income, size and municipality under their new names
      and every other column as it was. */
  ghost predicate RenamesDone(g: Frame, h: Frame) {
    && h.rows == g.rows
    && (forall i :: 0 <= i < |g.rows| ==>
      && At(h, i, RendaFamiliar) == At(g, i, Origin(g, VlrRenda, RendaFamiliar))
      && At(h, i, QtdPessoas) == At(g, i, Origin(g, QtdePessoas, QtdPessoas))
      && At(h, i, CodMunicipio) == At(g, i, Origin(g, CdIbge, CodMunicipio)))
    && (forall d :: d !in {VlrRenda, RendaFamiliar, QtdePessoas, QtdPessoas, CdIbge, CodMunicipio} ==>
      (Has(h, d) <==> Has(g, d)) && forall i :: 0 <= i < |g.rows| ==> At(h, i, d) == At(g, i, d))
    && (Has(h, RendaFamiliar) <==> Has(g, VlrRenda) || Has(g, RendaFamiliar))
    && (Has(h, QtdPessoas) <==> Has(g, QtdePessoas) || Has(g, QtdPessoas))
    && (Has(h, CodMunicipio) <==> Has(g, CdIbge) || Has(g, CodMunicipio))
  }

  /** The renames of `juntar_dados`: family income, household size and the
      municipality code take the names the rest of the system uses. */
  function Renamed(g: Frame): (r: Result<Frame, Error>)
    requires Valid(g)
    ensures !Has(g, RendaFamiliar) && !Has(g, QtdPessoas) && !Has(g, CodMunicipio) ==> r.Ok?
    ensures r.Ok? ==> Valid(r.value) && RenamesDone(g, r.value)
  {
    RenameNamesApart();
    var a :- Rename(g, VlrRenda, RendaFamiliar);
    RenameReads(g, VlrRenda, RendaFamiliar);
    var b :- Rename(a, QtdePessoas, QtdPessoas);
    RenameReads(a, QtdePessoas, QtdPessoas);
    var c :- Rename(b, CdIbge, CodMunicipio);
    RenameReads(b, CdIbge, CodMunicipio);
    ThreeRenames(g, a, b, c);
    Ok(c)
  }

  lemma ThreeRenames(g: Frame, a: Frame, b: Frame, c: Frame)
    requires RenameDone(g, a, VlrRenda, RendaFamiliar)
    requires RenameDone(a, b, QtdePessoas, QtdPessoas)
    requires RenameDone(b, c, CdIbge, CodMunicipio)
    ensures RenamesDone(g, c)
  {
    RenameNamesApart();
    ThreeRenamesReads(g, a, b, c);
    forall d | d !in {VlrRenda, RendaFamiliar, QtdePessoas, QtdPessoas, CdIbge, CodMunicipio}
      ensures (Has(c, d) <==> Has(g, d)) && forall i :: 0 <= i < |g.rows| ==> At(c, i, d) == At(g, i, d)
    {
    }
  }

  lemma ThreeRenamesReads(g: Frame, a: Frame, b: Frame, c: Frame)
    requires RenameDone(g, a, VlrRenda, RendaFamiliar)
    requires RenameDone(a, b, QtdePessoas, QtdPessoas)
    requires RenameDone(b, c, CdIbge, CodMunicipio)
    ensures forall i :: 0 <= i < |g.rows| ==>
      && At(c, i, RendaFamiliar) == At(g, i, Origin(g, VlrRenda, RendaFamiliar))
      && At(c, i, QtdPessoas) == At(g, i, Origin(g, QtdePessoas, QtdPessoas))
      && At(c, i, CodMunicipio) == At(g, i, Origin(g, CdIbge, CodMunicipio))
    ensures Has(c, RendaFamiliar) <==> Has(g, VlrRenda) || Has(g, RendaFamiliar)
    ensures Has(c, QtdPessoas) <==> Has(g, QtdePessoas) || Has(g, QtdPessoas)
    ensures Has(c, CodMunicipio) <==> Has(g, CdIbge) || Has(g, CodMunicipio)
  {
    RenameNamesApart();
    assert Origin(a, QtdePessoas, QtdPessoas) == Origin(g, QtdePessoas, QtdPessoas);
    assert Origin(b, CdIbge, CodMunicipio) == Origin(g, CdIbge, CodMunicipio);
    forall i | 0 <= i < |g.rows|
      ensures At(c, i, CodMunicipio) == At(g, i, Origin(g, CdIbge, CodMunicipio))
    {
      var o := Origin(g, CdIbge, CodMunicipio);
      assert o != VlrRenda && o != RendaFamiliar && o != QtdePessoas && o != QtdPessoas;
    }
    forall i | 0 <= i < |g.rows|
      ensures At(c, i, QtdPessoas) == At(g, i, Origin(g, QtdePessoas, QtdPessoas))
    {
      var o := Origin(g, QtdePessoas, QtdPessoas);
      assert o != VlrRenda && o != RendaFamiliar;
    }
  }

  lemma RenameNamesApart()
    ensures |VlrRenda| == 19 && |RendaFamiliar| == 14 && |QtdePessoas| == 12
    ensures |QtdPessoas| == 19 && |CdIbge| == 7 && |CodMunicipio| == 13
    ensures VlrRenda[0] == 'v' && QtdPessoas[0] == 'q'
  {
  }

  /** The columns the adapted table may keep, in their order. */
  const FinalColumns: seq<string> := [
    IdFamilia, Idade, Sexo, Escolaridade, RendaFamiliar, QtdPessoas, PossuiDeficiencia,
    SituacaoTrabalho, TipoMoradia, AcessoAgua, AcessoEsgoto, RecebeBolsa, CodMunicipio
  ]

  lemma FinalColumnsDistinct()
    ensures Distinct(FinalColumns)
  {
    assert |IdFamilia| == 10 && |Idade| == 5 && |Sexo| == 4 && |Escolaridade| == 12 && |RendaFamiliar| == 14;
    assert |QtdPessoas| == 19 && |PossuiDeficiencia| == 18 && |SituacaoTrabalho| == 17 && |TipoMoradia| == 12;
    assert |AcessoAgua| == 11 && |AcessoEsgoto| == 13 && |RecebeBolsa| == 20 && |CodMunicipio| == 13;
    assert Escolaridade[0] == 'e' && TipoMoradia[0] == 't' && AcessoEsgoto[0] == 'a' && CodMunicipio[0] == 'c';
  }

  function IncomeCell(c: Cell): Cell { FillCell(c, Some(Float(0.0))) }

  function AgeCell(c: Cell): Cell { Some(Int(Trunc(NumOr(c, 0.0)))) }

  function SizeCell(c: Cell): Cell { Some(Int(Trunc(NumOr(c, 1.0)))) }

  /** The in-place fills at the end of `juntar_dados`. */
  const Fills: seq<Recoding> := [
    Recoding(RendaFamiliar, RendaFamiliar, IncomeCell),
    Recoding(Idade, Idade, AgeCell),
    Recoding(QtdPessoas, QtdPessoas, SizeCell)
  ]

  lemma FillsIndependent()
    ensures Independent(Fills)
    ensures Targets(Fills) == [RendaFamiliar, Idade, QtdPessoas]
  {
    assert |RendaFamiliar| == 14 && |Idade| == 5 && |QtdPessoas| == 19;
  }

  /** `r` keeps the listed columns of `h`, in the listed order, with the
      income, the age and the size filled. */
  ghost predicate FillsDone(h: Frame, r: Frame) {
    && |r.rows| == |h.rows|
    && Has(r, RendaFamiliar) && Has(r, Idade) && Has(r, QtdPessoas)
    && (forall c :: c in FinalColumns ==> (c in r.columns <==> Has(h, c)))
    && (forall c :: c in r.columns ==> c in FinalColumns)
    && (forall i :: 0 <= i < |h.rows| ==>
      && At(r, i, RendaFamiliar) == IncomeCell(At(h, i, RendaFamiliar))
      && At(r, i, Idade) == AgeCell(At(h, i, Idade))
      && At(r, i, QtdPessoas) == SizeCell(At(h, i, QtdPessoas)))
    && forall i, c :: 0 <= i < |h.rows| && c in r.columns && c !in {RendaFamiliar, Idade, QtdPessoas} ==>
      At(r, i, c) == At(h, i, c)
  }

  /** Keep the listed columns that exist, then fill the missing incomes with 0,
      the missing ages with 0 and the missing sizes with 1, casting age and size
      to integers; each of the three is read unconditionally. */
  function Finished(h: Frame): (r: Result<Frame, Error>)
    requires Valid(h)
    ensures r.Ok? <==> (Has(h, RendaFamiliar) && Has(h, Idade) && NumericColumn(h, Idade) && Has(h, QtdPessoas) && NumericColumn(h, QtdPessoas))
    ensures r.Ok? ==> Valid(r.value) && r.value.columns == Filter(FinalColumns, c => Has(h, c))
    ensures r.Ok? ==> FillsDone(h, r.value)
  {
    FinalColumnsDistinct();
    var cols := Filter(FinalColumns, c => Has(h, c));
    FilterDistinct(FinalColumns, c => Has(h, c));
    FinalKept(h, cols);
    var s := Select(h, cols).value;
    SelectedFinal(h, s, RendaFamiliar);
    SelectedFinal(h, s, Idade);
    SelectedFinal(h, s, QtdPessoas);
    var r := FillGaps(s);
    if r.Ok? then FilledFrom(h, s); r else r
  }

  /** The three fills, each failing on a missing column and the two casts on
      text, in the order they run. */
  function FillGaps(s: Frame): (r: Result<Frame, Error>)
    requires Valid(s)
    ensures r.Ok? <==> (Has(s, RendaFamiliar) && Has(s, Idade) && NumericColumn(s, Idade) && Has(s, QtdPessoas) && NumericColumn(s, QtdPessoas))
    ensures r.Ok? ==> Has(s, RendaFamiliar) && Has(s, Idade) && Has(s, QtdPessoas) && r.value == Filled(s)
  {
    var _ :- Require(s, [RendaFamiliar], []);
    var _ :- Require(s, [Idade], [Idade]);
    var _ :- Require(s, [QtdPessoas], [QtdPessoas]);
    Ok(Filled(s))
  }

  lemma FilledFrom(h: Frame, s: Frame)
    requires Valid(s) && Has(s, RendaFamiliar) && Has(s, Idade) && Has(s, QtdPessoas)
    requires forall c :: c in FinalColumns ==> (c in s.columns <==> Has(h, c))
    requires forall c :: c in s.columns ==> c in FinalColumns
    requires |s.rows| == |h.rows|
    requires forall i, d :: 0 <= i < |h.rows| && d in s.columns ==> At(s, i, d) == At(h, i, d)
    ensures FillsDone(h, Filled(s))
  {
  }

  function Filled(s: Frame): (g: Frame)
    requires Valid(s) && Has(s, RendaFamiliar) && Has(s, Idade) && Has(s, QtdPessoas)
    ensures Valid(g) && g.columns == s.columns && |g.rows| == |s.rows|
    ensures forall i :: 0 <= i < |s.rows| ==>
      && At(g, i, RendaFamiliar) == IncomeCell(At(s, i, RendaFamiliar))
      && At(g, i, Idade) == AgeCell(At(s, i, Idade))
      && At(g, i, QtdPessoas) == SizeCell(At(s, i, QtdPessoas))
    ensures forall i, c :: 0 <= i < |s.rows| && c in s.columns && c !in {RendaFamiliar, Idade, QtdPessoas} ==>
      At(g, i, c) == At(s, i, c)
  {
    FillsIndependent();
    var g := RecodeAll(s, Fills);
    RecodeAllReads(s, Fills, 0);
    RecodeAllReads(s, Fills, 1);
    RecodeAllReads(s, Fills, 2);
    assert (set k | 0 <= k < |Fills| :: Fills[k].target) == {RendaFamiliar, Idade, QtdPessoas} by {
      assert Fills[0].target == RendaFamiliar && Fills[1].target == Idade && Fills[2].target == QtdPessoas;
    }
    g
  }

  /** A listed column survives the selection exactly when `h` has it, with
      its cells. */
  lemma SelectedFinal(h: Frame, s: Frame, c: string)
    requires Valid(h) && c in FinalColumns
    requires forall d :: d in FinalColumns ==> (d in s.columns <==> Has(h, d))
    requires |s.rows| == |h.rows|
    requires forall i, d :: 0 <= i < |h.rows| && d in s.columns ==> At(s, i, d) == At(h, i, d)
    ensures Has(s, c) <==> Has(h, c)
    ensures NumericColumn(s, c) <==> NumericColumn(h, c)
  {
    if Has(h, c) {
      assert forall i :: 0 <= i < |h.rows| ==> At(s, i, c) == At(h, i, c);
    } else {
      assert forall i :: 0 <= i < |h.rows| ==> At(s, i, c) == None && At(h, i, c) == None;
    }
  }

  /** A column outside the rewritten set, present or not, reads the same. */
  lemma Untouched(m: Frame, g: Frame, e: set<string>, c: string)
    requires Keeps(m, g, e) && c !in e && forall d :: Has(g, d) <==> Has(m, d) || d in e
    ensures Has(g, c) <==> Has(m, c)
    ensures forall i :: 0 <= i < |g.rows| ==> At(g, i, c) == At(m, i, c)
  {
    if c in m.columns {
      Through(m, g, e, c);
    }
  }

  /** The household table column by column, from the joined table `m`: the
      family fields recoded, income, size and municipality under their new
      names, the age and size cast, and the person fields as the join left
      them. */
  ghost predicate AdaptedFrom(m: Frame, r: Frame) {
    && |r.rows| == |m.rows|
    && Has(r, AcessoAgua) && Has(r, AcessoEsgoto) && Has(r, TipoMoradia) && Has(r, RecebeBolsa)
    && Has(r, RendaFamiliar) && Has(r, Idade) && Has(r, QtdPessoas)
    && (forall c :: c in r.columns ==> c in FinalColumns)
    && (forall i :: 0 <= i < |r.rows| ==>
      && At(r, i, AcessoAgua) == ServedBy(At(m, i, CodAgua))
      && At(r, i, AcessoEsgoto) == ServedBy(At(m, i, CodEsgoto))
      && At(r, i, TipoMoradia) == DwellingCell(At(m, i, CodEspecie))
      && At(r, i, RecebeBolsa) == At(m, i, MarcPbf)
      && At(r, i, RendaFamiliar) == IncomeCell(At(m, i, Origin(m, VlrRenda, RendaFamiliar)))
      && At(r, i, Idade) == AgeCell(At(m, i, Idade))
      && At(r, i, QtdPessoas) == SizeCell(At(m, i, Origin(m, QtdePessoas, QtdPessoas)))
      && (Has(r, CodMunicipio) ==> At(r, i, CodMunicipio) == At(m, i, Origin(m, CdIbge, CodMunicipio))))
    && forall i, c :: 0 <= i < |r.rows| && c in PersonColumns && c != Idade && Has(r, c) ==> At(r, i, c) == At(m, i, c)
  }

  /** `juntar_dados(df_familia, df_pessoa)`: the reference persons joined to
      their families, the family fields derived, the columns renamed and
      selected, and the gaps filled. */
  function Households(fam: Frame, pes: Frame): (r: Result<Frame, Error>)
    requires Valid(fam) && Valid(pes)
    ensures Joined(fam, pes).Err? ==> r == Err(Joined(fam, pes).error)
    ensures r.Ok? ==> Joined(fam, pes).Ok? && Valid(r.value) && AdaptedFrom(Joined(fam, pes).value, r.value)
  {
    var m :- Joined(fam, pes);
    var g :- FamilyFields(m);
    var h :- Renamed(g);
    var r :- Finished(h);
    FamilyThrough(m, g, h, r);
    Ok(r)
  }

  /** The names the household stages write and read differ in length or
      first letter. */
  lemma HouseholdNamesApart()
    ensures |IdFamilia| == 10 && |Idade| == 5 && |Sexo| == 4 && |Escolaridade| == 12
    ensures |PossuiDeficiencia| == 18 && |SituacaoTrabalho| == 17
    ensures |AcessoAgua| == 11 && |AcessoEsgoto| == 13 && |TipoMoradia| == 12 && |RecebeBolsa| == 20
    ensures |VlrRenda| == 19 && |RendaFamiliar| == 14 && |QtdePessoas| == 12
    ensures |QtdPessoas| == 19 && |CdIbge| == 7 && |CodMunicipio| == 13
    ensures |CodAgua| == 25 && |CodEsgoto| == 29 && |CodEspecie| == 21 && |MarcPbf| == 8
    ensures Escolaridade[0] == 'e' && TipoMoradia[0] == 't' && QtdePessoas[0] == 'q'
    ensures AcessoEsgoto[0] == 'a' && CodMunicipio[0] == 'c' && VlrRenda[0] == 'v' && QtdPessoas[0] == 'q'
  {
  }

  /** The family fields survive the renames. */
  lemma FamilyToRenamed(m: Frame, g: Frame, h: Frame)
    requires FieldsWritten(m, g) && RenamesDone(g, h)
    ensures Has(h, AcessoAgua) && Has(h, AcessoEsgoto) && Has(h, TipoMoradia) && Has(h, RecebeBolsa)
    ensures forall i :: 0 <= i < |h.rows| ==>
      && At(h, i, AcessoAgua) == ServedBy(At(m, i, CodAgua))
      && At(h, i, AcessoEsgoto) == ServedBy(At(m, i, CodEsgoto))
      && At(h, i, TipoMoradia) == DwellingCell(At(m, i, CodEspecie))
      && At(h, i, RecebeBolsa) == At(m, i, MarcPbf)
  {
    HouseholdNamesApart();
  }

  /** Income, size and municipality, from the joined table to the renamed
      one. */
  lemma JoinedToRenamed(m: Frame, g: Frame, h: Frame)
    requires FieldsWritten(m, g) && RenamesDone(g, h)
    ensures forall i :: 0 <= i < |h.rows| ==>
      && At(h, i, RendaFamiliar) == At(m, i, Origin(m, VlrRenda, RendaFamiliar))
      && At(h, i, QtdPessoas) == At(m, i, Origin(m, QtdePessoas, QtdPessoas))
      && At(h, i, CodMunicipio) == At(m, i, Origin(m, CdIbge, CodMunicipio))
  {
    HouseholdNamesApart();
    var e := {AcessoAgua, AcessoEsgoto, TipoMoradia, RecebeBolsa};
    Untouched(m, g, e, VlrRenda);
    Untouched(m, g, e, RendaFamiliar);
    Untouched(m, g, e, QtdePessoas);
    Untouched(m, g, e, QtdPessoas);
    Untouched(m, g, e, CdIbge);
    Untouched(m, g, e, CodMunicipio);
  }

  /** The person fields, from the joined table to the renamed one. */
  lemma PersonToRenamed(m: Frame, g: Frame, h: Frame)
    requires FieldsWritten(m, g) && RenamesDone(g, h)
    ensures forall c :: c in PersonColumns ==> (Has(h, c) <==> Has(m, c)) && forall i :: 0 <= i < |h.rows| ==> At(h, i, c) == At(m, i, c)
  {
    forall c | c in PersonColumns ensures (Has(h, c) <==> Has(m, c)) && forall i :: 0 <= i < |h.rows| ==> At(h, i, c) == At(m, i, c) {
      PersonNamesApart(c);
      Untouched(m, g, {AcessoAgua, AcessoEsgoto, TipoMoradia, RecebeBolsa}, c);
    }
  }

  /** No person field is written by the family stage or renamed. */
  lemma PersonNamesApart(c: string)
    requires c in PersonColumns
    ensures c !in {AcessoAgua, AcessoEsgoto, TipoMoradia, RecebeBolsa}
    ensures c !in {VlrRenda, RendaFamiliar, QtdePessoas, QtdPessoas, CdIbge, CodMunicipio}
  {
    HouseholdNamesApart();
  }

  lemma FamilyThrough(m: Frame, g: Frame, h: Frame, r: Frame)
    requires Valid(h) && FieldsWritten(m, g) && RenamesDone(g, h) && FillsDone(h, r)
    ensures AdaptedFrom(m, r)
  {
    FamilyThroughFamily(m, g, h, r);
    FamilyThroughRenamed(m, g, h, r);
    FamilyThroughPerson(m, g, h, r);
  }

  lemma FamilyThroughFamily(m: Frame, g: Frame, h: Frame, r: Frame)
    requires FieldsWritten(m, g) && RenamesDone(g, h) && FillsDone(h, r)
    ensures |r.rows| == |m.rows|
    ensures Has(r, AcessoAgua) && Has(r, AcessoEsgoto) && Has(r, TipoMoradia) && Has(r, RecebeBolsa)
    ensures forall i :: 0 <= i < |r.rows| ==>
      && At(r, i, AcessoAgua) == ServedBy(At(m, i, CodAgua))
      && At(r, i, AcessoEsgoto) == ServedBy(At(m, i, CodEsgoto))
      && At(r, i, TipoMoradia) == DwellingCell(At(m, i, CodEspecie))
      && At(r, i, RecebeBolsa) == At(m, i, MarcPbf)
  {
    FamilyToRenamed(m, g, h);
    FinalKeepsFamily(h, r);
  }

  /** The family columns reach the final table untouched. */
  lemma FinalKeepsFamily(h: Frame, r: Frame)
    requires FillsDone(h, r)
    requires Has(h, AcessoAgua) && Has(h, AcessoEsgoto) && Has(h, TipoMoradia) && Has(h, RecebeBolsa)
    ensures Has(r, AcessoAgua) && Has(r, AcessoEsgoto) && Has(r, TipoMoradia) && Has(r, RecebeBolsa)
    ensures forall i :: 0 <= i < |r.rows| ==>
      && At(r, i, AcessoAgua) == At(h, i, AcessoAgua)
      && At(r, i, AcessoEsgoto) == At(h, i, AcessoEsgoto)
      && At(r, i, TipoMoradia) == At(h, i, TipoMoradia)
      && At(r, i, RecebeBolsa) == At(h, i, RecebeBolsa)
  {
    HouseholdNamesApart();
    assert FinalColumns[8] == TipoMoradia && FinalColumns[9] == AcessoAgua;
    assert FinalColumns[10] == AcessoEsgoto && FinalColumns[11] == RecebeBolsa;
  }

  lemma FamilyThroughRenamed(m: Frame, g: Frame, h: Frame, r: Frame)
    requires FieldsWritten(m, g) && RenamesDone(g, h) && FillsDone(h, r)
    ensures forall i :: 0 <= i < |r.rows| ==>
      && At(r, i, RendaFamiliar) == IncomeCell(At(m, i, Origin(m, VlrRenda, RendaFamiliar)))
      && At(r, i, Idade) == AgeCell(At(m, i, Idade))
      && At(r, i, QtdPessoas) == SizeCell(At(m, i, Origin(m, QtdePessoas, QtdPessoas)))
      && (Has(r, CodMunicipio) ==> At(r, i, CodMunicipio) == At(m, i, Origin(m, CdIbge, CodMunicipio)))
  {
    JoinedToRenamed(m, g, h);
    PersonToRenamed(m, g, h);
    assert PersonColumns[1] == Idade;
    FinalRenamed(m, h, r);
  }

  lemma FamilyThroughPerson(m: Frame, g: Frame, h: Frame, r: Frame)
    requires FieldsWritten(m, g) && RenamesDone(g, h) && FillsDone(h, r)
    ensures forall i, c :: 0 <= i < |r.rows| && c in PersonColumns && c != Idade && Has(r, c) ==> At(r, i, c) == At(m, i, c)
  {
    PersonToRenamed(m, g, h);
    FinalPerson(m, h, r);
  }

  lemma FinalRenamed(m: Frame, h: Frame, r: Frame)
    requires |h.rows| == |m.rows| && FillsDone(h, r)
    requires forall i :: 0 <= i < |h.rows| ==>
      && At(h, i, RendaFamiliar) == At(m, i, Origin(m, VlrRenda, RendaFamiliar))
      && At(h, i, QtdPessoas) == At(m, i, Origin(m, QtdePessoas, QtdPessoas))
      && At(h, i, CodMunicipio) == At(m, i, Origin(m, CdIbge, CodMunicipio))
    requires forall i :: 0 <= i < |h.rows| ==> At(h, i, Idade) == At(m, i, Idade)
    ensures forall i :: 0 <= i < |r.rows| ==>
      && At(r, i, RendaFamiliar) == IncomeCell(At(m, i, Origin(m, VlrRenda, RendaFamiliar)))
      && At(r, i, Idade) == AgeCell(At(m, i, Idade))
      && At(r, i, QtdPessoas) == SizeCell(At(m, i, Origin(m, QtdePessoas, QtdPessoas)))
      && (Has(r, CodMunicipio) ==> At(r, i, CodMunicipio) == At(m, i, Origin(m, CdIbge, CodMunicipio)))
  {
    HouseholdNamesApart();
    forall i | 0 <= i < |r.rows|
      ensures At(r, i, RendaFamiliar) == IncomeCell(At(m, i, Origin(m, VlrRenda, RendaFamiliar)))
      ensures At(r, i, Idade) == AgeCell(At(m, i, Idade))
      ensures At(r, i, QtdPessoas) == SizeCell(At(m, i, Origin(m, QtdePessoas, QtdPessoas)))
      ensures Has(r, CodMunicipio) ==> At(r, i, CodMunicipio) == At(m, i, Origin(m, CdIbge, CodMunicipio))
    {
      if Has(r, CodMunicipio) {
        assert CodMunicipio in FinalColumns && CodMunicipio !in {RendaFamiliar, Idade, QtdPessoas};
      }
    }
  }

  lemma FinalPerson(m: Frame, h: Frame, r: Frame)
    requires |h.rows| == |m.rows| && FillsDone(h, r)
    requires forall c :: c in PersonColumns ==> forall i :: 0 <= i < |h.rows| ==> At(h, i, c) == At(m, i, c)
    ensures forall i, c :: 0 <= i < |r.rows| && c in PersonColumns && c != Idade && Has(r, c) ==> At(r, i, c) == At(m, i, c)
  {
    PersonColumnsDistinct();
    HouseholdNamesApart();
  }

  /** What the selection keeps, by column. */
  lemma FinalKept(h: Frame, cols: seq<string>)
    requires cols == Filter(FinalColumns, c => Has(h, c))
    ensures forall c :: c in FinalColumns ==> (c in cols <==> Has(h, c))
    ensures forall c :: c in cols ==> c in FinalColumns
  {
    forall c | c in FinalColumns && Has(h, c) ensures c in cols {
      FilterKeeps(FinalColumns, d => Has(h, d), c);
    }
  }
}
