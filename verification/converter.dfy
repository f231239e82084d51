/** `conversor_dados_governo`: the converter from the government's CadUnico
    sample files to the system's household table. The family-only converter
    (`converter_arquivo_familias`) fills the person fields with placeholders;
    the merging converter (`converter_e_mesclar_familias_pessoas`, module
    `GovMerge`) strips quotes from every text column, joins each family with
    its reference person and drops rows without a municipality or a per-capita
    income. This module holds the cleaning, the coercions, the household row and
    the family-only converter. Tables come in as `read_csv` produced them;
    textual number parsing is a parameter. */
module GovConverter {
  import opened Wrappers
  import opened Seqs
  import opened Frames
  import opened Joins
  import Features
  import GovMapper
  import RealData

  // ---------------------------------------------------------------------------
  // Quote stripping

  /** The double quote character (code point 34). */
  const Quote: char := 34 as char

  predicate NotQuote(c: char) { c != Quote }

  /** `str.replace` of the double quote by nothing. */
  function Strip(s: string): (t: string)
    ensures Quote !in t && |t| <= |s|
  {
    Filter(s, NotQuote)
  }

  /** Stripping keeps every other character, in order: it works piecewise. */
  lemma StripAppend(a: string, b: string)
    ensures Strip(a + b) == Strip(a) + Strip(b)
  {
    FilterAppend(a, b, NotQuote);
  }

  /** A single character survives exactly when it is not a double quote. */
  lemma StripChar(c: char)
    ensures Strip([c]) == if c == Quote then [] else [c]
  {
    assert [c][1..] == [];
  }

  /** Text without quotes is left as it is. */
  lemma StripUnquoted(s: string)
    requires Quote !in s
    ensures Strip(s) == s
  {
    FilterAll(s, NotQuote);
  }

  lemma StripIdempotent(s: string)
    ensures Strip(Strip(s)) == Strip(s)
  {
    StripUnquoted(Strip(s));
  }

  /** `astype(str)` and the removal of double quotes on one cell of a text column: text
      loses its quotes and NaN becomes the text `nan`. */
  function CleanCell(c: Cell): (r: Cell)
    ensures r.Some? && (r.value.Text? ==> Quote !in r.value.s)
    ensures c.Some? && c.value.Text? ==> r == Some(Text(Strip(c.value.s)))
    ensures c.None? ==> r == Some(Text("nan"))
    ensures c.Some? && !c.value.Text? ==> r == c
  {
    match c
    case None => Some(Text("nan"))
    case Some(Text(s)) => Some(Text(Strip(s)))
    case Some(_) => c
  }

  lemma CleanCellIdempotent(c: Cell)
    ensures CleanCell(CleanCell(c)) == CleanCell(c)
  {
    match c
    case None => StripUnquoted("nan");
    case Some(Text(s)) => StripIdempotent(s);
    case Some(_) =>
  }

  predicate AllDigits(s: string) {
    forall k :: 0 <= k < |s| ==> '0' <= s[k] <= '9'
  }

  /** The decimal digit of `d`. */
  function DigitChar(d: nat): char
    requires d < 10
  {
    ('0' as int + d) as char
  }

  /** Python's `str` of a natural number: its decimal digits, most significant
      first, with no leading zero. */
  function Digits(n: nat): (s: string)
    ensures |s| > 0 && AllDigits(s)
    ensures n > 0 ==> s[0] != '0'
    decreases n
  {
    if n < 10 then [DigitChar(n)] else Digits(n / 10) + [DigitChar(n % 10)]
  }

  /** The number a string of decimal digits spells. */
  function DigitsValue(s: string): nat
    requires AllDigits(s)
  {
    if |s| == 0 then 0
    else DigitsValue(s[..|s| - 1]) * 10 + (s[|s| - 1] as int - '0' as int)
  }

  /** Reading the digits back gives the number. */
  lemma {:induction false} DigitsRoundTrip(n: nat)
    ensures DigitsValue(Digits(n)) == n
    decreases n
  {
    if n >= 10 {
      DigitsRoundTrip(n / 10);
      var s := Digits(n);
      assert s[..|s| - 1] == Digits(n / 10);
    }
  }

  /** Python's `str` of an integer. */
  function IntText(n: int): string {
    if n < 0 then "-" + Digits(-n) else Digits(n)
  }

  /** `astype(str)` on one cell: NaN becomes `nan`, an integer its decimal
      digits, a text stays itself; the text of a float is `repr`, a
      parameter. */
  function CellText(c: Cell, repr: real -> string): (t: string)
    ensures c.None? ==> t == "nan"
    ensures c.Some? && c.value.Text? ==> t == c.value.s
    ensures c.Some? && c.value.Int? && c.value.i >= 0 ==> AllDigits(t) && DigitsValue(t) == c.value.i
    ensures c.Some? && c.value.Int? && c.value.i < 0 ==>
      |t| > 1 && t[0] == '-' && AllDigits(t[1..]) && DigitsValue(t[1..]) == -c.value.i
  {
    match c
    case None => "nan"
    case Some(Text(s)) => s
    case Some(Int(n)) =>
      DigitsRoundTrip(if n < 0 then -n else n);
      if n < 0 then assert ("-" + Digits(-n))[1..] == Digits(-n); IntText(n) else IntText(n)
    case Some(Float(x)) => repr(x)
  }

  /** `astype(str)` and the removal of double quotes on one cell, whatever the
      column type: always a text without quotes; NaN reads `nan`, a text loses
      its quotes, and an integer becomes its decimal digits. */
  function TextCleaned(c: Cell, repr: real -> string): (r: Cell)
    ensures r.Some? && r.value.Text? && Quote !in r.value.s
    ensures c.None? ==> r == Some(Text("nan"))
    ensures c.Some? && c.value.Text? ==> r == CleanCell(c)
    ensures c.Some? && c.value.Int? && c.value.i >= 0 ==> AllDigits(r.value.s) && DigitsValue(r.value.s) == c.value.i
    ensures c.Some? && c.value.Int? && c.value.i < 0 ==>
      |r.value.s| > 1 && r.value.s[0] == '-' && AllDigits(r.value.s[1..]) && DigitsValue(r.value.s[1..]) == -c.value.i
  {
    var t := CellText(c, repr);
    NumberTextUnquoted(c, repr);
    Some(Text(Strip(t)))
  }

  /** The text of NaN or of an integer holds no quote, so stripping keeps it. */
  lemma NumberTextUnquoted(c: Cell, repr: real -> string)
    ensures c.None? || c.value.Int? ==> Strip(CellText(c, repr)) == CellText(c, repr)
  {
    var t := CellText(c, repr);
    if c.None? {
      StripUnquoted("nan");
    } else if c.value.Int? {
      forall k | 0 <= k < |t| ensures t[k] != Quote {
        if c.value.i < 0 && k > 0 { assert t[k] == t[1..][k - 1]; }
      }
      StripUnquoted(t);
    }
  }

  predicate IsText(c: Cell) {
    c.Some? && c.value.Text?
  }

  /** pandas gives a column the `object` dtype when it holds text. */
  predicate ObjectColumn(f: Frame, c: string) {
    exists i :: 0 <= i < |f.rows| && IsText(At(f, i, c))
  }

  /** The cell of a cleaned table. */
  function CleanAt(f: Frame, i: int, c: string): Cell
    requires 0 <= i < |f.rows|
  {
    if ObjectColumn(f, c) then CleanCell(At(f, i, c)) else At(f, i, c)
  }

  /** The loops over `df.columns` that clean every `object` column; numeric
      columns are left alone. */
  function CleanTable(f: Frame): (g: Frame)
    requires Valid(f)
    ensures Valid(g) && g.columns == f.columns && |g.rows| == |f.rows|
    ensures forall i, c :: 0 <= i < |f.rows| && Has(f, c) ==> At(g, i, c) == CleanAt(f, i, c)
  {
    var g := Frame(f.columns, seq(|f.rows|, i requires 0 <= i < |f.rows| =>
      seq(|f.columns|, j requires 0 <= j < |f.columns| => CleanAt(f, i, f.columns[j]))));
    CleanedAt(f, g);
    g
  }

  lemma CleanedAt(f: Frame, g: Frame)
    requires Valid(f) && g.columns == f.columns && |g.rows| == |f.rows|
    requires forall i :: 0 <= i < |g.rows| ==> |g.rows[i]| == |f.columns|
    requires forall i, j :: 0 <= i < |g.rows| && 0 <= j < |f.columns| ==> g.rows[i][j] == CleanAt(f, i, f.columns[j])
    ensures Valid(g)
    ensures forall i, c :: 0 <= i < |f.rows| && Has(f, c) ==> At(g, i, c) == CleanAt(f, i, c)
  {
    forall i, c | 0 <= i < |f.rows| && Has(f, c) ensures At(g, i, c) == CleanAt(f, i, c) {
      var j := IndexOf(f.columns, c);
      assert g.rows[i][j] == CleanAt(f, i, f.columns[j]);
    }
  }

  /** After cleaning no text cell holds a quote. */
  lemma CleanedUnquoted(f: Frame, i: int, c: string)
    requires Valid(f) && 0 <= i < |f.rows| && Has(f, c)
    ensures IsText(At(CleanTable(f), i, c)) ==> Quote !in At(CleanTable(f), i, c).value.s
  {
    if !ObjectColumn(f, c) {
      assert !IsText(At(f, i, c));
    }
  }

  /** A column holds text after cleaning exactly when it did before. */
  lemma CleanedObject(f: Frame, c: string)
    requires Valid(f) && Has(f, c)
    ensures ObjectColumn(CleanTable(f), c) <==> ObjectColumn(f, c)
  {
    var g := CleanTable(f);
    if ObjectColumn(f, c) {
      var i :| 0 <= i < |f.rows| && IsText(At(f, i, c));
      assert IsText(At(g, i, c));
    }
  }

  /** Cleaning twice is cleaning once. */
  lemma CleanTableIdempotent(f: Frame)
    requires Valid(f)
    ensures CleanTable(CleanTable(f)) == CleanTable(f)
  {
    var g := CleanTable(f);
    var h := CleanTable(g);
    forall i, j | 0 <= i < |g.rows| && 0 <= j < |g.columns| ensures h.rows[i][j] == g.rows[i][j] {
      var c := g.columns[j];
      IndexOfDistinct(g.columns, j);
      CleanedObject(f, c);
      CleanCellIdempotent(At(f, i, c));
      assert h.rows[i][j] == At(h, i, c) && g.rows[i][j] == At(g, i, c);
    }
    forall i | 0 <= i < |g.rows| ensures h.rows[i] == g.rows[i] {
    }
  }

  // ---------------------------------------------------------------------------
  // Coercion

  /** `pd.to_numeric(errors='coerce')` on one cell: numbers stay, text is
      parsed, and what does not parse is NaN. */
  function ToNumeric(c: Cell, parse: string -> Option<real>): (x: Option<real>)
    ensures !IsText(c) ==> x == Num(c)
    ensures IsText(c) ==> x == parse(c.value.s)
  {
    match c
    case Some(Text(s)) => parse(s)
    case _ => Num(c)
  }

  /** pandas reads the text `nan` as NaN. */
  predicate ParsesNaN(parse: string -> Option<real>) {
    parse("nan") == None
  }

  /** Cleaning a cell and coercing it is coercing its unquoted text. */
  lemma CoerceCleaned(c: Cell, parse: string -> Option<real>)
    requires ParsesNaN(parse)
    ensures ToNumeric(CleanCell(c), parse) == if IsText(c) then parse(Strip(c.value.s)) else Num(c)
  {
  }

  /** `(x == 1).astype(int)`: NaN compares unequal. */
  function FlagOf(x: Option<real>): (b: int)
    ensures b == 1 <==> x == Some(1.0)
    ensures b == 0 || b == 1
  {
    if x == Some(1.0) then 1 else 0
  }

  /** A float quotient as IEEE division gives it. */
  datatype Quotient = Finite(x: real) | PosInf | NegInf | NaN

  /** `a / b` on float columns: a zero divisor gives an infinity, or NaN for
      `0 / 0`. */
  function Divide(a: real, b: real): (q: Quotient)
    ensures q.Finite? <==> b != 0.0
    ensures q.Finite? ==> q.x * b == a
    ensures q.NaN? <==> a == 0.0 && b == 0.0
    ensures q.PosInf? <==> b == 0.0 && a > 0.0
  {
    if b != 0.0 then Finite(a / b)
    else if a > 0.0 then PosInf
    else if a < 0.0 then NegInf
    else NaN
  }

  /** `fillna(0)` on a quotient. */
  function FillQuotient(q: Quotient): (r: Quotient)
    ensures !r.NaN?
    ensures !q.NaN? ==> r == q
  {
    if q.NaN? then Finite(0.0) else q
  }

  // ---------------------------------------------------------------------------
  // Households

  /** The person fields of the output. */
  datatype Person = Person(idade: real, sexo: string, escolaridade: real, trabalho: real, deficiencia: int)

  /** One output row: the fields of the merging converter's final columns, with
      the person's fields grouped in `Person` (so not in that column order). */
  datatype HouseholdRecord = HouseholdRecord(
    municipio: Cell, familia: Cell, person: Person, renda: real, pessoas: real, perCapita: Quotient,
    moradia: real, agua: int, esgoto: int, bolsa: int)

  /** The values the family-only converter writes until person data arrives. */
  const Placeholder := Person(35.0, "F", 1.0, 0.0, 0)

  /** `cod_sexo_pessoa.map({'1': 'M', '2': 'F'}).fillna('F')`: only the text
      `1` is male; a numeric code, an unknown code or NaN is female. */
  function SexText(c: Cell): (s: string)
    ensures s == "M" <==> c == Some(Text("1"))
    ensures s == "M" || s == "F"
  {
    if c == Some(Text("1")) then "M"
    else if c == Some(Text("2")) then "F"
    else "F"
  }

  /** The person fields from the cells the join brought along (all NaN when no
      reference person matched). */
  function PersonOf(idade: Cell, sexo: Cell, curso: Cell, trabalho: Cell, deficiencia: Cell, parse: string -> Option<real>): (p: Person)
    ensures p.deficiencia == 1 <==> ToNumeric(deficiencia, parse).Some? && ToNumeric(deficiencia, parse).value > 0.0
    ensures p.deficiencia == 0 || p.deficiencia == 1
    ensures ToNumeric(idade, parse).Some? ==> p.idade == ToNumeric(idade, parse).value
    ensures ToNumeric(curso, parse).Some? ==> p.escolaridade == ToNumeric(curso, parse).value
    ensures ToNumeric(trabalho, parse).Some? ==> p.trabalho == ToNumeric(trabalho, parse).value
  {
    var d := ToNumeric(deficiencia, parse);
    Person(ToNumeric(idade, parse).GetOr(35.0), SexText(sexo), ToNumeric(curso, parse).GetOr(1.0),
           ToNumeric(trabalho, parse).GetOr(0.0), if d.Some? && d.value > 0.0 then 1 else 0)
  }

  /** A family without a reference person gets exactly the family-only
      converter's placeholders. */
  lemma UnmatchedIsPlaceholder(parse: string -> Option<real>)
    ensures PersonOf(None, None, None, None, None, parse) == Placeholder
  {
  }

  // ---------------------------------------------------------------------------
  // The family-only converter

  const CodAguaCanalizada := "cod_agua_canalizada_fam"
  const CodCursoFrequentou := "cod_curso_frequentou_pessoa_memb"

  /** The family columns both converters read, in the order they read them. */
  const FamilyInputs: seq<string> := [
    GovMapper.CdIbge, RealData.IdFamilia, GovMapper.VlrRenda, GovMapper.QtdePessoas,
    RealData.CodEspecie, CodAguaCanalizada, GovMapper.CodEsgoto, GovMapper.MarcPbf
  ]

  /** One cell coerced after `astype(str)` and the removal of double quotes. */
  function Coerced(f: Frame, i: int, c: string, parse: string -> Option<real>): Option<real>
    requires 0 <= i < |f.rows|
  {
    var x := At(f, i, c);
    if IsText(x) then parse(Strip(x.value.s)) else Num(x)
  }

  /** The coerced family codes of one row, in source order. */
  datatype Codes = Codes(renda: Option<real>, pessoas: Option<real>, especie: Option<real>,
                         agua: Option<real>, esgoto: Option<real>, pbf: Option<real>)

  /** The household built from a row's coerced codes, with the documented
      defaults for codes that did not parse. */
  function FamilyRow(municipio: Cell, familia: Cell, p: Person, k: Codes): (h: HouseholdRecord)
    ensures h.agua == FlagOf(k.agua) && h.esgoto == FlagOf(k.esgoto)
    ensures h.renda == k.renda.GetOr(0.0) && h.pessoas == k.pessoas.GetOr(1.0)
    ensures h.perCapita == Divide(h.renda, h.pessoas)
    ensures h.moradia == k.especie.GetOr(1.0) && h.bolsa == Trunc(k.pbf.GetOr(0.0))
    ensures h.person == p && h.municipio == municipio && h.familia == familia
  {
    var renda := k.renda.GetOr(0.0);
    var pessoas := k.pessoas.GetOr(1.0);
    HouseholdRecord(municipio, familia, p, renda, pessoas, Divide(renda, pessoas), k.especie.GetOr(1.0),
              FlagOf(k.agua), FlagOf(k.esgoto), Trunc(k.pbf.GetOr(0.0)))
  }

  /** The family codes of row `i` coerced after `astype(str)` and the removal
      of double quotes. */
  function RawCodes(f: Frame, i: int, parse: string -> Option<real>): Codes
    requires 0 <= i < |f.rows|
  {
    Codes(Coerced(f, i, GovMapper.VlrRenda, parse), Coerced(f, i, GovMapper.QtdePessoas, parse),
          Coerced(f, i, RealData.CodEspecie, parse), Coerced(f, i, CodAguaCanalizada, parse),
          Coerced(f, i, GovMapper.CodEsgoto, parse), Coerced(f, i, GovMapper.MarcPbf, parse))
  }

  /** `converter_arquivo_familias` on one row: the municipality and family id
      as the text `astype(str)` gives whatever the column type, without
      quotes; the per-capita NaN filled with 0; placeholders for the person. */
  function FamilyOnlyRow(f: Frame, i: int, parse: string -> Option<real>, repr: real -> string): (h: HouseholdRecord)
    requires 0 <= i < |f.rows|
  {
    var h := FamilyRow(TextCleaned(At(f, i, GovMapper.CdIbge), repr), TextCleaned(At(f, i, RealData.IdFamilia), repr),
                       Placeholder, RawCodes(f, i, parse));
    h.(perCapita := FillQuotient(h.perCapita))
  }

  /** `converter_arquivo_familias(...)`: one household per family row, or the
      `KeyError` of the first missing source column. */
  function ConvertFamilies(f: Frame, parse: string -> Option<real>, repr: real -> string): (r: Result<seq<HouseholdRecord>, Error>)
    requires Valid(f)
    ensures r.Ok? <==> forall c :: c in FamilyInputs ==> Has(f, c)
    ensures r.Ok? ==> |r.value| == |f.rows|
    ensures r.Ok? ==> forall i :: 0 <= i < |f.rows| ==> r.value[i] == FamilyOnlyRow(f, i, parse, repr)
  {
    match FirstMissing(f, FamilyInputs)
    case Some(c) => Err(MissingColumn(c))
    case None => Ok(seq(|f.rows|, i requires 0 <= i < |f.rows| => FamilyOnlyRow(f, i, parse, repr)))
  }

  /** What the family-only converter promises of every row: placeholders for
      the person, no NaN income, and a per-capita income that is the quotient
      wherever the household size is not zero. */
  lemma FamilyOnlyMeaning(f: Frame, i: int, parse: string -> Option<real>, repr: real -> string)
    requires 0 <= i < |f.rows|
    ensures var h := FamilyOnlyRow(f, i, parse, repr);
      && h.person == Placeholder
      && !h.perCapita.NaN?
      && (h.pessoas != 0.0 ==> h.perCapita == Finite(h.renda / h.pessoas))
  {
    var k := RawCodes(f, i, parse);
    var h0 := FamilyRow(TextCleaned(At(f, i, GovMapper.CdIbge), repr), TextCleaned(At(f, i, RealData.IdFamilia), repr),
                        Placeholder, k);
    assert FamilyOnlyRow(f, i, parse, repr) == h0.(perCapita := FillQuotient(h0.perCapita));
  }

  /** The family-only converter writes the municipality and the family id as
      texts without quotes, whatever their column type: NaN reads `nan`, and a
      natural number reads back as itself. */
  lemma FamilyOnlyIds(f: Frame, i: int, parse: string -> Option<real>, repr: real -> string)
    requires 0 <= i < |f.rows|
    ensures var h := FamilyOnlyRow(f, i, parse, repr);
      var c := At(f, i, GovMapper.CdIbge);
      var d := At(f, i, RealData.IdFamilia);
      && h.municipio.Some? && h.municipio.value.Text? && Quote !in h.municipio.value.s
      && h.familia.Some? && h.familia.value.Text? && Quote !in h.familia.value.s
      && (c.None? ==> h.municipio == Some(Text("nan")))
      && (d.None? ==> h.familia == Some(Text("nan")))
      && (c.Some? && c.value.Int? && c.value.i >= 0 ==> DigitsValue(h.municipio.value.s) == c.value.i)
      && (d.Some? && d.value.Int? && d.value.i >= 0 ==> DigitsValue(h.familia.value.s) == d.value.i)
  {
    var k := RawCodes(f, i, parse);
    var h0 := FamilyRow(TextCleaned(At(f, i, GovMapper.CdIbge), repr), TextCleaned(At(f, i, RealData.IdFamilia), repr),
                        Placeholder, k);
    assert FamilyOnlyRow(f, i, parse, repr) == h0.(perCapita := FillQuotient(h0.perCapita));
  }

  /** The family-only converter's codes: access flags that are 1 exactly for
      code 1, and the documented defaults for what does not parse. */
  lemma FamilyOnlyCodes(f: Frame, i: int, parse: string -> Option<real>, repr: real -> string)
    requires 0 <= i < |f.rows|
    ensures var h := FamilyOnlyRow(f, i, parse, repr);
      && (h.agua == 1 <==> Coerced(f, i, CodAguaCanalizada, parse) == Some(1.0))
      && (h.esgoto == 1 <==> Coerced(f, i, GovMapper.CodEsgoto, parse) == Some(1.0))
      && (Coerced(f, i, GovMapper.VlrRenda, parse).None? ==> h.renda == 0.0)
      && (Coerced(f, i, GovMapper.QtdePessoas, parse).None? ==> h.pessoas == 1.0)
      && (Coerced(f, i, RealData.CodEspecie, parse).None? ==> h.moradia == 1.0)
      && (Coerced(f, i, GovMapper.MarcPbf, parse).None? ==> h.bolsa == 0)
  {
    var k := RawCodes(f, i, parse);
    var h0 := FamilyRow(TextCleaned(At(f, i, GovMapper.CdIbge), repr), TextCleaned(At(f, i, RealData.IdFamilia), repr),
                        Placeholder, k);
    assert FamilyOnlyRow(f, i, parse, repr) == h0.(perCapita := FillQuotient(h0.perCapita));
  }
}
