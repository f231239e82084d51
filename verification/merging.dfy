/** `converter_e_mesclar_familias_pessoas`: the converter that joins each
    family row with its reference person before the clean-up filter. */
module GovMerge {
  import opened Wrappers
  import opened Seqs
  import opened Frames
  import opened Joins
  import opened GovConverter
  import Features
  import GovMapper
  import RealData

  // ---------------------------------------------------------------------------
  // The merging converter: reference persons

  /** The person columns the merging converter reads, in the order it reads them. */
  const PersonSources: seq<string> := [
    GovMapper.Parentesco, RealData.IdFamilia, Features.Idade, RealData.CodSexoPessoa,
    CodCursoFrequentou, RealData.CodTrabalhou, RealData.CodDeficiencia
  ]

  /** `df_pessoas['cod_parentesco_rf_pessoa'] == '1'`: a comparison with the
      text `1`, so a numeric code column selects nobody. */
  predicate IsReference(p: Frame, m: int)
    requires 0 <= m < |p.rows|
  {
    At(p, m, GovMapper.Parentesco) == Some(Text("1"))
  }

  /** The reference persons from row `m` on whose family id matches `key`,
      in row order. */
  function Partners(p: Frame, key: Cell, m: nat): (ms: seq<nat>)
    requires m <= |p.rows|
    ensures forall k :: 0 <= k < |ms| ==> m <= ms[k] < |p.rows| && IsReference(p, ms[k]) && KeyEq(key, At(p, ms[k], RealData.IdFamilia))
    ensures forall n :: m <= n < |p.rows| && IsReference(p, n) && KeyEq(key, At(p, n, RealData.IdFamilia)) ==> n in ms
    ensures forall k, l :: 0 <= k < l < |ms| ==> ms[k] < ms[l]
    decreases |p.rows| - m
  {
    if m == |p.rows| then []
    else (if IsReference(p, m) && KeyEq(key, At(p, m, RealData.IdFamilia)) then [m] else []) + Partners(p, key, m + 1)
  }

  /** The reference persons of each family row of `g`. */
  function PartnersOf(g: Frame, p: Frame): (refs: seq<seq<nat>>)
    ensures |refs| == |g.rows|
    ensures forall i :: 0 <= i < |g.rows| ==> refs[i] == Partners(p, At(g, i, RealData.IdFamilia), 0)
  {
    seq(|g.rows|, i requires 0 <= i < |g.rows| => Partners(p, At(g, i, RealData.IdFamilia), 0))
  }

  /** The join rows of family row `i`: one per reference person in `refs[i]`,
      in person order, or one with none. */
  function PartnerBlock(refs: seq<seq<nat>>, i: nat): (b: seq<(nat, Option<nat>)>)
    requires i < |refs|
    ensures |b| >= 1 && (|b| == 1 <==> |refs[i]| <= 1)
    ensures forall k :: 0 <= k < |b| ==> b[k].0 == i
    ensures forall k :: 0 <= k < |b| ==> (b[k].1.None? <==> |refs[i]| == 0)
    ensures forall k :: 0 <= k < |b| && b[k].1.Some? ==> b[k].1.value in refs[i]
  {
    var ms := refs[i];
    if |ms| == 0 then [(i, None)] else seq(|ms|, k requires 0 <= k < |ms| => (i, Some(ms[k])))
  }

  /** The rows of `merge(how='left')` from family row `i` on, as (family row,
      reference-person row) pairs. */
  function JoinPairs(refs: seq<seq<nat>>, i: nat): seq<(nat, Option<nat>)>
    requires i <= |refs|
    decreases |refs| - i
  {
    if i == |refs| then [] else PartnerBlock(refs, i) + JoinPairs(refs, i + 1)
  }

  /** A join row of family rows from `i` on: it names a family row and, if
      any, one of its reference persons, and it names nobody only for a family
      without one. */
  predicate PairSound(refs: seq<seq<nat>>, i: nat, pr: (nat, Option<nat>)) {
    && i <= pr.0 < |refs|
    && (pr.1.None? <==> |refs[pr.0]| == 0)
    && (pr.1.Some? ==> pr.1.value in refs[pr.0])
  }

  lemma {:induction false} JoinPairsSound(refs: seq<seq<nat>>, i: nat)
    requires i <= |refs|
    ensures forall k :: 0 <= k < |JoinPairs(refs, i)| ==> PairSound(refs, i, JoinPairs(refs, i)[k])
    decreases |refs| - i
  {
    if i < |refs| {
      JoinPairsSound(refs, i + 1);
      var b, rest := PartnerBlock(refs, i), JoinPairs(refs, i + 1);
      var js := b + rest;
      assert JoinPairs(refs, i) == js;
      forall k | 0 <= k < |js| ensures PairSound(refs, i, js[k]) {
        if k < |b| {
          assert js[k] == b[k];
        } else {
          assert js[k] == rest[k - |b|];
          assert PairSound(refs, i + 1, rest[k - |b|]);
        }
      }
    }
  }

  /** The pairs follow the family rows in order. */
  lemma {:induction false} JoinPairsOrdered(refs: seq<seq<nat>>, i: nat)
    requires i <= |refs|
    ensures forall k, l :: 0 <= k < l < |JoinPairs(refs, i)| ==> JoinPairs(refs, i)[k].0 <= JoinPairs(refs, i)[l].0
    decreases |refs| - i
  {
    if i < |refs| {
      JoinPairsOrdered(refs, i + 1);
      JoinPairsSound(refs, i + 1);
      var b, rest := PartnerBlock(refs, i), JoinPairs(refs, i + 1);
      var js := b + rest;
      assert JoinPairs(refs, i) == js;
      forall k, l | 0 <= k < l < |js| ensures js[k].0 <= js[l].0 {
        if l < |b| {
          assert js[k] == b[k] && js[l] == b[l];
        } else if k < |b| {
          assert js[k] == b[k] && js[l] == rest[l - |b|];
          assert PairSound(refs, i + 1, rest[l - |b|]);
        } else {
          assert js[k] == rest[k - |b|] && js[l] == rest[l - |b|];
          assert rest[k - |b|].0 <= rest[l - |b|].0;
        }
      }
    }
  }

  /** Some pair comes from family row `n`. */
  predicate Covered(js: seq<(nat, Option<nat>)>, n: nat) {
    exists k :: 0 <= k < |js| && js[k].0 == n
  }

  /** The left join keeps every family row, and repeats one only for a second
      reference person: with at most one each, there is exactly one row per
      family. */
  lemma {:induction false} JoinPairsCover(refs: seq<seq<nat>>, i: nat)
    requires i <= |refs|
    ensures var js := JoinPairs(refs, i);
      && (forall n: nat :: i <= n < |refs| ==> Covered(js, n))
      && |js| >= |refs| - i
      && ((forall n :: i <= n < |refs| ==> |refs[n]| <= 1) ==> |js| == |refs| - i)
    decreases |refs| - i
  {
    if i < |refs| {
      JoinPairsCover(refs, i + 1);
      var b, rest := PartnerBlock(refs, i), JoinPairs(refs, i + 1);
      var js := b + rest;
      assert JoinPairs(refs, i) == js;
      assert js[0].0 == i;
      forall n: nat | i < n < |refs| ensures Covered(js, n) {
        assert Covered(rest, n);
        var k :| 0 <= k < |rest| && rest[k].0 == n;
        assert js[|b| + k] == rest[k];
      }
    }
  }

  // ---------------------------------------------------------------------------
  // The merging converter: rows and filter

  /** The family codes of row `i` of the cleaned family table, coerced with
      `pd.to_numeric(errors='coerce')`. */
  function CleanCodes(g: Frame, i: int, parse: string -> Option<real>): Codes
    requires 0 <= i < |g.rows|
  {
    Codes(ToNumeric(At(g, i, GovMapper.VlrRenda), parse), ToNumeric(At(g, i, GovMapper.QtdePessoas), parse),
          ToNumeric(At(g, i, RealData.CodEspecie), parse), ToNumeric(At(g, i, CodAguaCanalizada), parse),
          ToNumeric(At(g, i, GovMapper.CodEsgoto), parse), ToNumeric(At(g, i, GovMapper.MarcPbf), parse))
  }

  /** A coerced number as a cell; NaN stays NaN. */
  function NumberCell(x: Option<real>): (c: Cell)
    ensures Num(c) == x
  {
    match x
    case Some(v) => Some(Float(v))
    case None => None
  }

  /** The person fields a join row carries: the reference person's cells, or
      NaN everywhere when the family has none. */
  function JoinedPerson(p: Frame, pr: (nat, Option<nat>), parse: string -> Option<real>): Person {
    match pr.1
    case Some(m) =>
      if m < |p.rows| then
        PersonOf(At(p, m, Features.Idade), At(p, m, RealData.CodSexoPessoa), At(p, m, CodCursoFrequentou),
                 At(p, m, RealData.CodTrabalhou), At(p, m, RealData.CodDeficiencia), parse)
      else PersonOf(None, None, None, None, None, parse)
    case None => PersonOf(None, None, None, None, None, parse)
  }

  /** One row of the merged table before the filter. */
  function MergedRow(g: Frame, p: Frame, pr: (nat, Option<nat>), parse: string -> Option<real>): HouseholdRecord
    requires pr.0 < |g.rows|
  {
    FamilyRow(NumberCell(ToNumeric(At(g, pr.0, GovMapper.CdIbge), parse)), At(g, pr.0, RealData.IdFamilia),
              JoinedPerson(p, pr, parse), CleanCodes(g, pr.0, parse))
  }

  /** The join pairs of the cleaned tables. */
  function Pairs(g: Frame, p: Frame): (js: seq<(nat, Option<nat>)>)
    ensures forall k :: 0 <= k < |js| ==> PairSound(PartnersOf(g, p), 0, js[k])
  {
    JoinPairsSound(PartnersOf(g, p), 0);
    JoinPairs(PartnersOf(g, p), 0)
  }

  /** `df_final.merge(df_responsaveis[...], on='id_familia_merge', how='left')`
      followed by the person-field coercions, on the cleaned tables. */
  function MergedHouseholds(g: Frame, p: Frame, parse: string -> Option<real>): (hs: seq<HouseholdRecord>)
    ensures |hs| == |Pairs(g, p)|
    ensures forall k :: 0 <= k < |hs| ==> Pairs(g, p)[k].0 < |g.rows| && hs[k] == MergedRow(g, p, Pairs(g, p)[k], parse)
  {
    var js := Pairs(g, p);
    seq(|js|, k requires 0 <= k < |js| => MergedRow(g, p, js[k], parse))
  }

  /** `dropna(subset=['cod_municipio', 'renda_per_capita'])`: an infinite
      per-capita income is not NaN and stays. */
  predicate HasKeys(h: HouseholdRecord) {
    h.municipio.Some? && !h.perCapita.NaN?
  }

  /** `df_resultado['cod_municipio'] > 0`. */
  predicate InMunicipality(h: HouseholdRecord) {
    Num(h.municipio).Some? && Num(h.municipio).value > 0.0
  }

  /** The rows the final clean-up keeps. */
  predicate Kept(h: HouseholdRecord) {
    HasKeys(h) && InMunicipality(h)
  }

  /** The two clean-up filters are one filter on both conditions. */
  lemma {:induction false} CleanupFilters(s: seq<HouseholdRecord>)
    ensures Filter(Filter(s, HasKeys), InMunicipality) == Filter(s, Kept)
  {
    if |s| > 0 {
      CleanupFilters(s[1..]);
      if HasKeys(s[0]) {
        assert Filter(s, HasKeys) == [s[0]] + Filter(s[1..], HasKeys);
        assert Filter(s, HasKeys)[1..] == Filter(s[1..], HasKeys);
      }
    }
  }

  /** `converter_e_mesclar_familias_pessoas(...)`: the `KeyError` of the
      first missing column, or the joined rows that have a positive
      municipality code and a per-capita income, in join order. */
  function ConvertAndMerge(fam: Frame, pes: Frame, parse: string -> Option<real>): (r: Result<seq<HouseholdRecord>, Error>)
    requires Valid(fam) && Valid(pes)
    ensures r.Ok? <==> (forall c :: c in FamilyInputs ==> Has(fam, c)) && (forall c :: c in PersonSources ==> Has(pes, c))
    ensures r.Ok? ==> forall h :: h in r.value ==> Kept(h)
    ensures r.Ok? ==> r.value == Filter(MergedHouseholds(CleanTable(fam), CleanTable(pes), parse), Kept)
  {
    match FirstMissing(fam, FamilyInputs)
    case Some(c) => Err(MissingColumn(c))
    case None =>
      match FirstMissing(pes, PersonSources)
      case Some(c) => Err(MissingColumn(c))
      case None =>
        var rows := MergedHouseholds(CleanTable(fam), CleanTable(pes), parse);
        CleanupFilters(rows);
        Ok(Filter(Filter(rows, HasKeys), InMunicipality))
  }

  // ---------------------------------------------------------------------------
  // The merging converter: what its rows mean

  /** Coercing a cell of the cleaned table gives what stripping the quotes and
      coercing gives: cleaning first is the same as the family-only route. */
  lemma CleanedCoerced(f: Frame, i: int, c: string, parse: string -> Option<real>)
    requires Valid(f) && 0 <= i < |f.rows| && Has(f, c) && ParsesNaN(parse)
    ensures ToNumeric(At(CleanTable(f), i, c), parse) == Coerced(f, i, c, parse)
  {
    if ObjectColumn(f, c) {
      CoerceCleaned(At(f, i, c), parse);
    } else {
      assert !IsText(At(f, i, c));
    }
  }

  /** The merged converter reads the same family codes as the family-only one. */
  lemma MergedCodesAgree(f: Frame, i: int, parse: string -> Option<real>)
    requires Valid(f) && 0 <= i < |f.rows| && ParsesNaN(parse)
    requires forall c :: c in FamilyInputs ==> Has(f, c)
    ensures CleanCodes(CleanTable(f), i, parse) == RawCodes(f, i, parse)
  {
    CleanedCoerced(f, i, GovMapper.VlrRenda, parse);
    CleanedCoerced(f, i, GovMapper.QtdePessoas, parse);
    CleanedCoerced(f, i, RealData.CodEspecie, parse);
    CleanedCoerced(f, i, CodAguaCanalizada, parse);
    CleanedCoerced(f, i, GovMapper.CodEsgoto, parse);
    CleanedCoerced(f, i, GovMapper.MarcPbf, parse);
  }

  /** A merged row and the family-only row of the same family agree on every
      income, housing and programme field; the per-capita incomes agree once
      the family-only NaN fill is applied, and the municipality is the coerced
      code. */
  lemma MergedFamilyAgrees(f: Frame, p: Frame, pr: (nat, Option<nat>), parse: string -> Option<real>, repr: real -> string)
    requires Valid(f) && pr.0 < |f.rows| && ParsesNaN(parse)
    requires forall c :: c in FamilyInputs ==> Has(f, c)
    ensures var h := MergedRow(CleanTable(f), p, pr, parse);
      var o := FamilyOnlyRow(f, pr.0, parse, repr);
      && h.(perCapita := FillQuotient(h.perCapita), municipio := o.municipio, familia := o.familia, person := o.person) == o
      && Num(h.municipio) == Coerced(f, pr.0, GovMapper.CdIbge, parse)
  {
    MergedCodesAgree(f, pr.0, parse);
    CleanedCoerced(f, pr.0, GovMapper.CdIbge, parse);
  }

  /** The person of a join row: the matched reference person's coerced fields,
      or the placeholders exactly when the family has no reference person. */
  lemma JoinedPersons(g: Frame, p: Frame, parse: string -> Option<real>, k: int)
    requires 0 <= k < |Pairs(g, p)|
    ensures var pr := Pairs(g, p)[k];
      var h := MergedHouseholds(g, p, parse)[k];
      var key := At(g, pr.0, RealData.IdFamilia);
      && pr.0 < |g.rows|
      && (pr.1.None? <==> forall n :: 0 <= n < |p.rows| && IsReference(p, n) ==> !KeyEq(key, At(p, n, RealData.IdFamilia)))
      && (pr.1.None? ==> h.person == Placeholder)
      && (pr.1.Some? ==>
            && pr.1.value < |p.rows| && IsReference(p, pr.1.value) && KeyEq(key, At(p, pr.1.value, RealData.IdFamilia))
            && h.person == PersonOf(At(p, pr.1.value, Features.Idade), At(p, pr.1.value, RealData.CodSexoPessoa),
                                    At(p, pr.1.value, CodCursoFrequentou), At(p, pr.1.value, RealData.CodTrabalhou),
                                    At(p, pr.1.value, RealData.CodDeficiencia), parse))
  {
    var pr := Pairs(g, p)[k];
    var refs := PartnersOf(g, p);
    assert PairSound(refs, 0, pr);
    var key := At(g, pr.0, RealData.IdFamilia);
    var ms := Partners(p, key, 0);
    assert refs[pr.0] == ms;
    UnmatchedIsPlaceholder(parse);
    if pr.1.Some? {
      assert ms[0] < |p.rows| && IsReference(p, ms[0]) && KeyEq(key, At(p, ms[0], RealData.IdFamilia));
    }
  }

  /** With every family row from `i` on unmatched, the join is one
      placeholder pair per family row, in order. */
  lemma {:induction false} JoinPairsUnmatched(refs: seq<seq<nat>>, i: nat)
    requires i <= |refs|
    requires forall n :: i <= n < |refs| ==> |refs[n]| == 0
    ensures |JoinPairs(refs, i)| == |refs| - i
    ensures forall k :: 0 <= k < |JoinPairs(refs, i)| ==> JoinPairs(refs, i)[k] == (i + k, None)
    decreases |refs| - i
  {
    if i < |refs| {
      JoinPairsUnmatched(refs, i + 1);
      var rest := JoinPairs(refs, i + 1);
      assert JoinPairs(refs, i) == [(i, None)] + rest;
    }
  }

  /** A table without reference persons gives no family a partner. */
  lemma {:induction false} NobodyPartners(p: Frame, key: Cell, m: nat)
    requires m <= |p.rows|
    requires forall n :: 0 <= n < |p.rows| ==> !IsReference(p, n)
    ensures Partners(p, key, m) == []
    decreases |p.rows| - m
  {
    if m < |p.rows| {
      NobodyPartners(p, key, m + 1);
    }
  }

  /** `df_pessoas[df_pessoas['cod_parentesco_rf_pessoa'] == '1']` compares
      with the text `'1'`: when pandas read the kinship column as numbers, no
      person is a reference person, and every family keeps one row with the
      placeholder person. */
  lemma NumericKinshipMatchesNobody(g: Frame, pes: Frame, parse: string -> Option<real>)
    requires Valid(pes) && Has(pes, GovMapper.Parentesco) && !ObjectColumn(pes, GovMapper.Parentesco)
    ensures var hs := MergedHouseholds(g, CleanTable(pes), parse);
      && |hs| == |g.rows|
      && forall k :: 0 <= k < |hs| ==> Pairs(g, CleanTable(pes))[k].0 == k && hs[k].person == Placeholder
  {
    var p := CleanTable(pes);
    var refs := PartnersOf(g, p);
    forall n | 0 <= n < |p.rows| ensures !IsReference(p, n) {
      assert !IsText(At(pes, n, GovMapper.Parentesco));
    }
    forall n | 0 <= n < |refs| ensures |refs[n]| == 0 {
      var ms := Partners(p, At(g, n, RealData.IdFamilia), 0);
      assert refs[n] == ms;
      NobodyPartners(p, At(g, n, RealData.IdFamilia), 0);
    }
    JoinPairsUnmatched(refs, 0);
    UnmatchedIsPlaceholder(parse);
  }

  /** The clean-up condition on a family row, in terms of the raw codes: a
      positive municipality code, and not both a zero income and a zero
      household size. */
  predicate FamilySurvives(f: Frame, i: int, parse: string -> Option<real>)
    requires 0 <= i < |f.rows|
  {
    var m := Coerced(f, i, GovMapper.CdIbge, parse);
    && m.Some? && m.value > 0.0
    && !(Coerced(f, i, GovMapper.VlrRenda, parse).GetOr(0.0) == 0.0 && Coerced(f, i, GovMapper.QtdePessoas, parse).GetOr(1.0) == 0.0)
  }

  /** Whether a merged row survives the clean-up depends only on its family. */
  lemma MergedKept(f: Frame, p: Frame, pr: (nat, Option<nat>), parse: string -> Option<real>)
    requires Valid(f) && pr.0 < |f.rows| && ParsesNaN(parse)
    requires forall c :: c in FamilyInputs ==> Has(f, c)
    ensures Kept(MergedRow(CleanTable(f), p, pr, parse)) <==> FamilySurvives(f, pr.0, parse)
  {
    MergedCodesAgree(f, pr.0, parse);
    CleanedCoerced(f, pr.0, GovMapper.CdIbge, parse);
  }

  /** Every family that meets the clean-up condition reaches the result. */
  lemma MergedFamiliesSurvive(fam: Frame, pes: Frame, parse: string -> Option<real>, i: int)
    requires Valid(fam) && Valid(pes) && ParsesNaN(parse) && 0 <= i < |fam.rows|
    requires forall c :: c in FamilyInputs ==> Has(fam, c)
    requires forall c :: c in PersonSources ==> Has(pes, c)
    requires FamilySurvives(fam, i, parse)
    ensures ConvertAndMerge(fam, pes, parse).Ok?
    ensures var g, p := CleanTable(fam), CleanTable(pes);
      exists k :: 0 <= k < |Pairs(g, p)| && Pairs(g, p)[k].0 == i && MergedHouseholds(g, p, parse)[k] in ConvertAndMerge(fam, pes, parse).value
  {
    var g, p := CleanTable(fam), CleanTable(pes);
    var js, rows := Pairs(g, p), MergedHouseholds(g, p, parse);
    var r := ConvertAndMerge(fam, pes, parse);
    assert r.Ok? && r.value == Filter(rows, Kept);
    JoinPairsCover(PartnersOf(g, p), 0);
    assert Covered(js, i);
    var k :| 0 <= k < |js| && js[k].0 == i;
    MergedKept(fam, p, js[k], parse);
    FilterKeeps(rows, Kept, rows[k]);
  }

  /** The result holds only rows of families that meet the clean-up condition. */
  lemma MergedRowsKept(fam: Frame, pes: Frame, parse: string -> Option<real>)
    requires Valid(fam) && Valid(pes) && ParsesNaN(parse)
    requires forall c :: c in FamilyInputs ==> Has(fam, c)
    requires forall c :: c in PersonSources ==> Has(pes, c)
    ensures ConvertAndMerge(fam, pes, parse).Ok?
    ensures var g, p := CleanTable(fam), CleanTable(pes);
      forall h :: h in ConvertAndMerge(fam, pes, parse).value ==>
        exists k :: 0 <= k < |Pairs(g, p)| && MergedHouseholds(g, p, parse)[k] == h && FamilySurvives(fam, Pairs(g, p)[k].0, parse)
  {
    var g, p := CleanTable(fam), CleanTable(pes);
    var js, rows := Pairs(g, p), MergedHouseholds(g, p, parse);
    var r := ConvertAndMerge(fam, pes, parse);
    assert r.Ok? && r.value == Filter(rows, Kept);
    forall h | h in r.value
      ensures exists k :: 0 <= k < |js| && rows[k] == h && FamilySurvives(fam, js[k].0, parse)
    {
      assert h in rows && Kept(h);
      var k :| 0 <= k < |rows| && rows[k] == h;
      MergedKept(fam, p, js[k], parse);
    }
  }

  /** The sex map `{'1': 'M', '2': 'F'}` reads text: a quoted code is male once
      its quotes are stripped, while a code read as the number 1 falls to the
      default 'F'. */
  lemma SexCodesAsText()
    ensures SexText(CleanCell(Some(Text([Quote, '1', Quote])))) == "M"
    ensures SexText(Some(Int(1))) == "F"
  {
    StripAppend([Quote], ['1', Quote]);
    StripAppend(['1'], [Quote]);
    StripChar(Quote);
    StripChar('1');
    assert [Quote, '1', Quote] == [Quote] + (['1'] + [Quote]);
  }
}
