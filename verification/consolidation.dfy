/** `consolidar_dados`: the household register left-joined on `nis` with the
    payment columns of the Bolsa Familia table, the payment cells of households
    without a payment filled with neutral defaults. */
module Consolidation {
  import opened Wrappers
  import opened Seqs
  import opened Frames
  import opened Joins
  import opened Missing
  import opened Features

  const ValorBeneficio := "valor_beneficio"
  const Modalidade := "modalidade"
  const NaoBeneficiario := "não_beneficiário"

  /** The columns taken from the payment table, key first. */
  const PaymentColumns: seq<string> := [Nis, ValorBeneficio, StatusBeneficio, Modalidade]

  /** The payment columns that reach the consolidated table. */
  const Copied: seq<string> := [ValorBeneficio, StatusBeneficio, Modalidade]

  /** What a household without a payment shows in a copied column. */
  function Default(c: string): Cell {
    if c == ValorBeneficio then Some(Int(0)) else Some(Text(NaoBeneficiario))
  }

  lemma PaymentNames()
    ensures |Nis| == 3 && |ValorBeneficio| == 15 && |StatusBeneficio| == 16 && |Modalidade| == 10
    ensures ValorBeneficio[14] == 'o' && StatusBeneficio[15] == 'o' && Modalidade[9] == 'e'
    ensures Distinct(PaymentColumns) && Distinct(Copied)
    ensures PaymentColumns[1..] == Copied
  {
  }

  /** The selected payment columns: the key first, dropped by the join. */
  lemma PaymentLayout()
    ensures Distinct(PaymentColumns)
    ensures IndexOf(PaymentColumns, Nis) == 0
    ensures RightColumns(PaymentColumns, Nis, true) == Copied
  {
    PaymentNames();
  }

  /** The payment table carries the four payment columns. */
  predicate HasPayments(bolsa: Frame) {
    Has(bolsa, Nis) && Has(bolsa, ValorBeneficio) && Has(bolsa, StatusBeneficio) && Has(bolsa, Modalidade)
  }

  /** The names hold the three copied columns. */
  predicate HoldsCopied(cols: seq<string>) {
    ValorBeneficio in cols && StatusBeneficio in cols && Modalidade in cols
  }

  /** The register already uses one of the copied names. */
  predicate Clash(cad: Frame) {
    Has(cad, ValorBeneficio) || Has(cad, StatusBeneficio) || Has(cad, Modalidade)
  }

  lemma PaymentsPresent(bolsa: Frame)
    ensures (forall c :: c in PaymentColumns ==> Has(bolsa, c)) <==> HasPayments(bolsa)
  {
    assert PaymentColumns[0] == Nis && PaymentColumns[1] == ValorBeneficio;
    assert PaymentColumns[2] == StatusBeneficio && PaymentColumns[3] == Modalidade;
  }

  /** `df[c].fillna(v, inplace=True)` for the three copied columns, in source
      order; the first missing column raises `KeyError`. */
  function FillPayments(m: Frame): (r: Result<Frame, Error>)
    requires Valid(m)
    ensures r.Ok? <==> HoldsCopied(m.columns)
    ensures r.Ok? ==> Valid(r.value) && r.value.columns == m.columns && |r.value.rows| == |m.rows|
    ensures r.Ok? ==> Keeps(m, r.value, {ValorBeneficio, StatusBeneficio, Modalidade})
    ensures r.Ok? ==> forall i, t :: 0 <= i < |m.rows| && 0 <= t < |Copied| ==>
      At(r.value, i, Copied[t]) == FillCell(At(m, i, Copied[t]), Default(Copied[t]))
    ensures r.Ok? ==> forall i :: 0 <= i < |r.value.rows| ==>
      At(r.value, i, ValorBeneficio).Some? && At(r.value, i, StatusBeneficio).Some? && At(r.value, i, Modalidade).Some?
  {
    if !Has(m, ValorBeneficio) then Err(MissingColumn(ValorBeneficio))
    else if !Has(m, StatusBeneficio) then Err(MissingColumn(StatusBeneficio))
    else if !Has(m, Modalidade) then Err(MissingColumn(Modalidade))
    else
      PaymentNames();
      var a := FillColumn(m, ValorBeneficio, Default(ValorBeneficio));
      var b := FillColumn(a, StatusBeneficio, Default(StatusBeneficio));
      var r := FillColumn(b, Modalidade, Default(Modalidade));
      KeepsChain(m, a, b, {ValorBeneficio}, {StatusBeneficio}, {ValorBeneficio, StatusBeneficio, Modalidade});
      KeepsChain(m, b, r, {ValorBeneficio, StatusBeneficio, Modalidade}, {Modalidade}, {ValorBeneficio, StatusBeneficio, Modalidade});
      Ok(r)
  }

  /** The output names of the join hold the copied columns exactly when the
      register does not already use them; the register's names then come first,
      unsuffixed, followed by the copied ones. */
  lemma CopiedColumns(cad: Frame)
    requires Valid(cad)
    ensures HoldsCopied(OutColumns(cad.columns, Copied, "_x", "_y")) <==> !Clash(cad)
    ensures !Clash(cad) ==> OutColumns(cad.columns, Copied, "_x", "_y") == cad.columns + Copied
    ensures !Clash(cad) ==> Distinct(cad.columns + Copied)
  {
    PaymentNames();
    var out := OutColumns(cad.columns, Copied, "_x", "_y");
    if HoldsCopied(out) {
      OutColumnsUnsuffixed(cad.columns, Copied, "_x", "_y", ValorBeneficio);
      OutColumnsUnsuffixed(cad.columns, Copied, "_x", "_y", StatusBeneficio);
      OutColumnsUnsuffixed(cad.columns, Copied, "_x", "_y", Modalidade);
    }
    if !Clash(cad) {
      OutColumnsDisjoint(cad.columns, Copied, "_x", "_y");
      DistinctAppend(cad.columns, Copied);
      assert out[|cad.columns|] == ValorBeneficio;
      assert out[|cad.columns| + 1] == StatusBeneficio;
      assert out[|cad.columns| + 2] == Modalidade;
    }
  }

  /** The left join on `nis` of the register with the payment columns, before
      filling. */
  function Joined(cad: Frame, bolsa: Frame): (r: Result<Frame, Error>)
    requires Valid(cad) && Valid(bolsa)
    ensures !HasPayments(bolsa) ==> r.Err?
    ensures HasPayments(bolsa) && !Has(cad, Nis) ==> r == Err(MissingColumn(Nis))
    ensures HasPayments(bolsa) && Has(cad, Nis) ==> (r.Ok? <==> Distinct(OutColumns(cad.columns, Copied, "_x", "_y")))
    ensures r.Ok? ==> Valid(r.value) && r.value.columns == OutColumns(cad.columns, Copied, "_x", "_y")
    ensures r.Ok? ==> |r.value.rows| >= |cad.rows|
  {
    PaymentNames();
    PaymentsPresent(bolsa);
    var sel :- Select(bolsa, PaymentColumns);
    assert IndexOf(sel.columns, Nis) == 0;
    assert RightColumns(sel.columns, Nis, true) == Copied;
    var r := Merge(cad, sel, Nis, Nis, LeftJoin, "_x", "_y");
    if Has(cad, Nis) then
      LeftTotalCovers(cad.rows, IndexOf(cad.columns, Nis), sel.rows, 0);
      r
    else r
  }

  /** `consolidar_dados(df_cadunico, df_bolsa_familia)`. It succeeds exactly when
      the payment table has the four payment columns, the register has `nis`
      and does not already use a copied name (a clash would suffix the name and
      the `fillna` would not find its column); the result then keeps every
      household, once per matching payment, and leaves no copied cell empty. */
  function Consolidate(cad: Frame, bolsa: Frame): (r: Result<Frame, Error>)
    requires Valid(cad) && Valid(bolsa)
    ensures r.Ok? <==> HasPayments(bolsa) && Has(cad, Nis) && !Clash(cad)
    ensures HasPayments(bolsa) && !Has(cad, Nis) ==> r == Err(MissingColumn(Nis))
    ensures r.Ok? ==> Valid(r.value) && r.value.columns == cad.columns + Copied
    ensures r.Ok? ==> |r.value.rows| >= |cad.rows|
    ensures r.Ok? ==> forall i :: 0 <= i < |r.value.rows| ==>
      At(r.value, i, ValorBeneficio).Some? && At(r.value, i, StatusBeneficio).Some? && At(r.value, i, Modalidade).Some?
  {
    CopiedColumns(cad);
    match Joined(cad, bolsa)
    case Err(e) => Err(e)
    case Ok(m) => FillPayments(m)
  }

  /** No two payment rows carry matching `nis` keys. */
  ghost predicate UniquePayments(bolsa: Frame) {
    forall a, b :: 0 <= a < b < |bolsa.rows| ==> !KeyEq(At(bolsa, a, Nis), At(bolsa, b, Nis))
  }

  /** Payment row `j` belongs to household `i`. */
  predicate PaidBy(cad: Frame, i: int, bolsa: Frame, j: int)
    requires 0 <= i < |cad.rows| && 0 <= j < |bolsa.rows|
  {
    KeyEq(At(cad, i, Nis), At(bolsa, j, Nis))
  }

  /** What the join puts in row `i`: the household's own cells, then the
      copied cells of its payment, or nulls when it has none. */
  ghost predicate JoinedRow(cad: Frame, bolsa: Frame, m: Frame, i: int)
    requires 0 <= i < |cad.rows| && i < |m.rows|
  {
    && (forall d :: d in cad.columns ==> At(m, i, d) == At(cad, i, d))
    && (forall j :: 0 <= j < |bolsa.rows| && PaidBy(cad, i, bolsa, j) ==>
          forall t :: 0 <= t < |Copied| ==> At(m, i, Copied[t]) == At(bolsa, j, Copied[t]))
    && ((forall j :: 0 <= j < |bolsa.rows| ==> !PaidBy(cad, i, bolsa, j)) ==>
          forall t :: 0 <= t < |Copied| ==> At(m, i, Copied[t]) == None)
  }

  /** With unique payment keys, the join keeps one row per household, in order. */
  lemma JoinedHouseholds(cad: Frame, bolsa: Frame)
    requires Valid(cad) && Valid(bolsa) && UniquePayments(bolsa)
    requires HasPayments(bolsa) && Has(cad, Nis) && !Clash(cad)
    ensures Joined(cad, bolsa).Ok?
    ensures |Joined(cad, bolsa).value.rows| == |cad.rows|
    ensures forall i :: 0 <= i < |cad.rows| ==> JoinedRow(cad, bolsa, Joined(cad, bolsa).value, i)
  {
    var sel := JoinedShape(cad, bolsa);
    var m := Joined(cad, bolsa).value;
    var kl := IndexOf(cad.columns, Nis);
    SelectedKeysUnique(bolsa, sel);
    JoinRowsUnique(cad.rows, kl, sel.rows, 0, true, 3);
    forall i | 0 <= i < |cad.rows| ensures JoinedRow(cad, bolsa, m, i) {
      HouseholdRow(cad, bolsa, sel, m, kl, i);
    }
  }

  /** The join as the row-level left join of the register with `sel`, the
      payment columns selected from the payment table. */
  lemma JoinedShape(cad: Frame, bolsa: Frame) returns (sel: Frame)
    requires Valid(cad) && Valid(bolsa)
    requires HasPayments(bolsa) && Has(cad, Nis) && !Clash(cad)
    ensures Valid(sel) && sel.columns == PaymentColumns && |sel.rows| == |bolsa.rows|
    ensures forall j, c :: 0 <= j < |sel.rows| && c in PaymentColumns ==> At(sel, j, c) == At(bolsa, j, c)
    ensures Joined(cad, bolsa).Ok?
    ensures Joined(cad, bolsa).value.columns == cad.columns + Copied && Distinct(cad.columns + Copied)
    ensures Joined(cad, bolsa).value.rows == JoinRows(cad.rows, IndexOf(cad.columns, Nis), sel.rows, 0, true, LeftJoin, 3)
  {
    PaymentsPresent(bolsa);
    PaymentLayout();
    var s := Select(bolsa, PaymentColumns);
    assert s.Ok?;
    sel := s.value;
    assert sel.columns == PaymentColumns;
    CopiedColumns(cad);
    var r := Merge(cad, sel, Nis, Nis, LeftJoin, "_x", "_y");
    assert r.Ok?;
    assert Joined(cad, bolsa) == r;
  }

  /** Unique keys in the payment table leave every household at most one match. */
  lemma SelectedKeysUnique(bolsa: Frame, sel: Frame)
    requires Valid(sel) && UniquePayments(bolsa)
    requires sel.columns == PaymentColumns && |sel.rows| == |bolsa.rows|
    requires forall j, c :: 0 <= j < |sel.rows| && c in PaymentColumns ==> At(sel, j, c) == At(bolsa, j, c)
    ensures forall key :: |Matches(key, sel.rows, 0)| <= 1
  {
    forall a, b | 0 <= a < b < |sel.rows| ensures !KeyEq(CellOf(sel.rows[a], 0), CellOf(sel.rows[b], 0)) {
      SelRow(bolsa, sel, a);
      SelRow(bolsa, sel, b);
    }
    forall key {
      MatchesAtMostOne(key, sel.rows, 0);
    }
  }

  lemma HouseholdRow(cad: Frame, bolsa: Frame, sel: Frame, m: Frame, kl: nat, i: int)
    requires Valid(cad) && Valid(bolsa) && Valid(sel) && UniquePayments(bolsa)
    requires sel.columns == PaymentColumns && |sel.rows| == |bolsa.rows|
    requires forall j, c :: 0 <= j < |sel.rows| && c in PaymentColumns ==> At(sel, j, c) == At(bolsa, j, c)
    requires Has(cad, Nis) && kl == IndexOf(cad.columns, Nis)
    requires m.columns == cad.columns + Copied && Distinct(m.columns)
    requires 0 <= i < |cad.rows| && i < |m.rows|
    requires |Matches(CellOf(cad.rows[i], kl), sel.rows, 0)| <= 1
    requires m.rows[i] == Block(cad.rows[i], kl, sel.rows, 0, true, LeftJoin, 3)[0]
    ensures JoinedRow(cad, bolsa, m, i)
  {
    var key := CellOf(cad.rows[i], kl);
    BlockRow(cad.rows[i], kl, sel.rows, 0, true, 3);
    if exists j :: 0 <= j < |sel.rows| && KeyEq(key, CellOf(sel.rows[j], 0)) {
      var j0 :| 0 <= j0 < |sel.rows| && KeyEq(key, CellOf(sel.rows[j0], 0))
        && m.rows[i] == cad.rows[i] + RightPart(sel.rows[j0], 0, true);
      PaidRow(cad, bolsa, sel, m, kl, i, j0);
    } else {
      UnpaidRow(cad, bolsa, sel, m, kl, i);
    }
  }

  /** A household whose key matches payment row `j0` reads that payment. */
  lemma PaidRow(cad: Frame, bolsa: Frame, sel: Frame, m: Frame, kl: nat, i: int, j0: int)
    requires Valid(cad) && Valid(bolsa) && Valid(sel) && UniquePayments(bolsa)
    requires sel.columns == PaymentColumns && |sel.rows| == |bolsa.rows|
    requires forall j, c :: 0 <= j < |sel.rows| && c in PaymentColumns ==> At(sel, j, c) == At(bolsa, j, c)
    requires Has(cad, Nis) && kl == IndexOf(cad.columns, Nis)
    requires m.columns == cad.columns + Copied && Distinct(m.columns)
    requires 0 <= i < |cad.rows| && i < |m.rows| && 0 <= j0 < |sel.rows|
    requires KeyEq(CellOf(cad.rows[i], kl), CellOf(sel.rows[j0], 0))
    requires m.rows[i] == cad.rows[i] + RightPart(sel.rows[j0], 0, true)
    ensures JoinedRow(cad, bolsa, m, i)
  {
    var key := CellOf(cad.rows[i], kl);
    assert key == At(cad, i, Nis);
    SelRow(bolsa, sel, j0);
    AtWidened(m, cad, Copied, i, i, sel.rows[j0][1..]);
    assert PaidBy(cad, i, bolsa, j0);
    forall j | 0 <= j < |bolsa.rows| && PaidBy(cad, i, bolsa, j)
      ensures forall t :: 0 <= t < |Copied| ==> At(m, i, Copied[t]) == At(bolsa, j, Copied[t])
    {
      KeyEqShared(key, At(bolsa, j, Nis), At(bolsa, j0, Nis));
      KeyEqShared(key, At(bolsa, j0, Nis), At(bolsa, j, Nis));
      assert j == j0;
    }
  }

  /** A household no payment row matches reads nulls in the copied columns. */
  lemma UnpaidRow(cad: Frame, bolsa: Frame, sel: Frame, m: Frame, kl: nat, i: int)
    requires Valid(cad) && Valid(sel)
    requires sel.columns == PaymentColumns && |sel.rows| == |bolsa.rows|
    requires forall j, c :: 0 <= j < |sel.rows| && c in PaymentColumns ==> At(sel, j, c) == At(bolsa, j, c)
    requires Has(cad, Nis) && kl == IndexOf(cad.columns, Nis)
    requires m.columns == cad.columns + Copied && Distinct(m.columns)
    requires 0 <= i < |cad.rows| && i < |m.rows|
    requires forall j :: 0 <= j < |sel.rows| ==> !KeyEq(CellOf(cad.rows[i], kl), CellOf(sel.rows[j], 0))
    requires m.rows[i] == cad.rows[i] + Repeat(3, None)
    ensures JoinedRow(cad, bolsa, m, i)
  {
    assert CellOf(cad.rows[i], kl) == At(cad, i, Nis);
    forall j | 0 <= j < |bolsa.rows| ensures !PaidBy(cad, i, bolsa, j) {
      SelRow(bolsa, sel, j);
    }
    AtWidened(m, cad, Copied, i, i, Repeat(3, None));
  }

  /** A row of the selected payment columns: the key first, then the copied cells. */
  lemma SelRow(bolsa: Frame, sel: Frame, j: int)
    requires Valid(sel) && sel.columns == PaymentColumns && |sel.rows| == |bolsa.rows| && 0 <= j < |sel.rows|
    requires forall j, c :: 0 <= j < |sel.rows| && c in PaymentColumns ==> At(sel, j, c) == At(bolsa, j, c)
    ensures CellOf(sel.rows[j], 0) == At(bolsa, j, Nis)
    ensures |sel.rows[j][1..]| == |Copied|
    ensures forall t :: 0 <= t < |Copied| ==> sel.rows[j][1..][t] == At(bolsa, j, Copied[t])
  {
    PaymentNames();
    assert At(sel, j, Nis) == At(bolsa, j, Nis);
    forall t | 0 <= t < |Copied| ensures sel.rows[j][1..][t] == At(bolsa, j, Copied[t]) {
      assert Copied[t] == PaymentColumns[t + 1];
      IndexOfDistinct(PaymentColumns, t + 1);
      assert At(sel, j, Copied[t]) == At(bolsa, j, Copied[t]);
    }
  }

  /** With unique payment keys, `consolidar_dados` keeps one row per household,
      in order, with the household's own cells unchanged; a paid household
      shows its payment, a null payment cell replaced by the default, and a
      household without a payment shows the defaults. */
  lemma ConsolidateHouseholds(cad: Frame, bolsa: Frame)
    requires Valid(cad) && Valid(bolsa) && UniquePayments(bolsa)
    requires HasPayments(bolsa) && Has(cad, Nis) && !Clash(cad)
    ensures Consolidate(cad, bolsa).Ok?
    ensures |Consolidate(cad, bolsa).value.rows| == |cad.rows|
    ensures forall i :: 0 <= i < |cad.rows| ==> ConsolidatedRow(cad, bolsa, Consolidate(cad, bolsa).value, i)
  {
    JoinedHouseholds(cad, bolsa);
    var m := Joined(cad, bolsa).value;
    var r := Consolidate(cad, bolsa).value;
    assert r == FillPayments(m).value;
    forall i | 0 <= i < |cad.rows| ensures ConsolidatedRow(cad, bolsa, r, i) {
      FilledRow(cad, bolsa, m, r, i);
    }
  }

  /** Row `i` of the consolidated table, as household `i` of the register. */
  ghost predicate ConsolidatedRow(cad: Frame, bolsa: Frame, r: Frame, i: int)
    requires 0 <= i < |cad.rows| && i < |r.rows|
  {
    && (forall d :: d in cad.columns ==> At(r, i, d) == At(cad, i, d))
    && (forall j, t :: 0 <= j < |bolsa.rows| && PaidBy(cad, i, bolsa, j) && 0 <= t < |Copied| ==>
          At(r, i, Copied[t]) == FillCell(At(bolsa, j, Copied[t]), Default(Copied[t])))
    && ((forall j :: 0 <= j < |bolsa.rows| ==> !PaidBy(cad, i, bolsa, j)) ==>
          forall t :: 0 <= t < |Copied| ==> At(r, i, Copied[t]) == Default(Copied[t]))
  }

  lemma FilledRow(cad: Frame, bolsa: Frame, m: Frame, r: Frame, i: int)
    requires Valid(m) && !Clash(cad) && FillPayments(m).Ok? && r == FillPayments(m).value
    requires 0 <= i < |cad.rows| && i < |m.rows| && JoinedRow(cad, bolsa, m, i)
    ensures i < |r.rows| && ConsolidatedRow(cad, bolsa, r, i)
  {
    forall d | d in cad.columns ensures At(r, i, d) == At(cad, i, d) {
      assert d != ValorBeneficio && d != StatusBeneficio && d != Modalidade;
    }
  }

  lemma DistinctAppend(a: seq<string>, b: seq<string>)
    requires Distinct(a) && Distinct(b) && forall c :: c in a ==> c !in b
    ensures Distinct(a + b)
  {
    forall i, j | 0 <= i < j < |a + b| ensures (a + b)[i] != (a + b)[j] {
      if j >= |a| && i < |a| {
        assert (a + b)[j] in b;
      }
    }
  }
}
