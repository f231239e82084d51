/** `DataFrame.merge` for the two join kinds the pipeline uses (`how='left'`
    and `how='inner'`), with pandas' output layout: the left columns, then the
    right columns (the right key dropped when both keys have the same name), with
    the suffixes appended to names present on both sides. Output rows follow the
    left rows in order; a left row is repeated once per matching right row, in
    right-row order, and a left join keeps an unmatched left row once with null
    right cells. */
module Joins {
  import opened Wrappers
  import opened Seqs
  import opened Frames

  /** Merge-key equality: NaN matches NaN, numbers match by value, text by
      content. A number never matches a text key. */
  predicate KeyEq(a: Cell, b: Cell) {
    match (a, b)
    case (None, None) => true
    case (Some(Text(x)), Some(Text(y))) => x == y
    case _ => Num(a).Some? && Num(a) == Num(b)
  }

  datatype How = LeftJoin | InnerJoin

  /** The right rows whose key cell (position `kr`) matches `key`, in order. */
  function Matches(key: Cell, rrows: seq<Row>, kr: nat): (ms: seq<Row>)
    ensures |ms| <= |rrows|
    ensures forall m :: m in ms ==> m in rrows && KeyEq(key, CellOf(m, kr))
  {
    Filter(rrows, (m: Row) => KeyEq(key, CellOf(m, kr)))
  }

  /** A right row without its key cell when the key is shared with the left side. */
  function RightPart(m: Row, kr: nat, dropKey: bool): (p: Row)
    ensures kr < |m| && dropKey ==> |p| == |m| - 1
    ensures !dropKey ==> p == m
  {
    if dropKey && kr < |m| then m[..kr] + m[kr + 1..] else m
  }

  /** How many output rows one left row produces. */
  function Mult(l: Row, kl: nat, rrows: seq<Row>, kr: nat, how: How): nat {
    var k := |Matches(CellOf(l, kl), rrows, kr)|;
    if how == LeftJoin && k == 0 then 1 else k
  }

  /** The output rows produced by one left row. */
  function Block(l: Row, kl: nat, rrows: seq<Row>, kr: nat, dropKey: bool, how: How, width: nat): (b: seq<Row>)
    ensures |b| == Mult(l, kl, rrows, kr, how)
    ensures forall j :: 0 <= j < |b| ==> |l| <= |b[j]| && b[j][..|l|] == l
    ensures |Matches(CellOf(l, kl), rrows, kr)| == 0 && how == LeftJoin ==> b == [l + Repeat(width, None)]
  {
    var ms := Matches(CellOf(l, kl), rrows, kr);
    if |ms| == 0 then
      if how == LeftJoin then [l + Repeat(width, None)] else []
    else
      seq(|ms|, j requires 0 <= j < |ms| => l + RightPart(ms[j], kr, dropKey))
  }

  function JoinRows(lrows: seq<Row>, kl: nat, rrows: seq<Row>, kr: nat, dropKey: bool, how: How, width: nat): seq<Row> {
    if |lrows| == 0 then []
    else Block(lrows[0], kl, rrows, kr, dropKey, how, width) + JoinRows(lrows[1..], kl, rrows, kr, dropKey, how, width)
  }

  /** Every left row repeated as many times as it produces output rows: the
      left-hand half of the join result. */
  function Expand(lrows: seq<Row>, kl: nat, rrows: seq<Row>, kr: nat, how: How): seq<Row> {
    if |lrows| == 0 then []
    else seq(Mult(lrows[0], kl, rrows, kr, how), _ => lrows[0]) + Expand(lrows[1..], kl, rrows, kr, how)
  }

  /** The first `w` cells of every row. */
  function Prefixes(rows: seq<Row>, w: nat): (p: seq<Row>)
    requires forall j :: 0 <= j < |rows| ==> w <= |rows[j]|
    ensures |p| == |rows|
  {
    seq(|rows|, j requires 0 <= j < |rows| => rows[j][..w])
  }

  /** The total number of output rows of a join. */
  function Total(lrows: seq<Row>, kl: nat, rrows: seq<Row>, kr: nat, how: How): nat {
    if |lrows| == 0 then 0 else Mult(lrows[0], kl, rrows, kr, how) + Total(lrows[1..], kl, rrows, kr, how)
  }

  lemma {:induction false} JoinRowsLength(lrows: seq<Row>, kl: nat, rrows: seq<Row>, kr: nat, dropKey: bool, how: How, width: nat)
    ensures |JoinRows(lrows, kl, rrows, kr, dropKey, how, width)| == Total(lrows, kl, rrows, kr, how)
  {
    if |lrows| > 0 {
      JoinRowsLength(lrows[1..], kl, rrows, kr, dropKey, how, width);
    }
  }

  lemma PrefixesAppend(a: seq<Row>, b: seq<Row>, w: nat)
    requires forall j :: 0 <= j < |a| ==> w <= |a[j]|
    requires forall j :: 0 <= j < |b| ==> w <= |b[j]|
    ensures forall j :: 0 <= j < |a + b| ==> w <= |(a + b)[j]|
    ensures Prefixes(a + b, w) == Prefixes(a, w) + Prefixes(b, w)
  {
    assert forall j :: 0 <= j < |a + b| ==> (a + b)[j] == if j < |a| then a[j] else b[j - |a|];
  }

  lemma {:induction false} JoinRowsShape(lrows: seq<Row>, kl: nat, rrows: seq<Row>, kr: nat, dropKey: bool, how: How, width: nat, w: nat)
    requires forall j :: 0 <= j < |lrows| ==> |lrows[j]| == w
    ensures forall j :: 0 <= j < |JoinRows(lrows, kl, rrows, kr, dropKey, how, width)| ==>
      w <= |JoinRows(lrows, kl, rrows, kr, dropKey, how, width)[j]|
    ensures Prefixes(JoinRows(lrows, kl, rrows, kr, dropKey, how, width), w) == Expand(lrows, kl, rrows, kr, how)
  {
    if |lrows| > 0 {
      var b := Block(lrows[0], kl, rrows, kr, dropKey, how, width);
      var rest := JoinRows(lrows[1..], kl, rrows, kr, dropKey, how, width);
      JoinRowsShape(lrows[1..], kl, rrows, kr, dropKey, how, width, w);
      PrefixesAppend(b, rest, w);
      assert Prefixes(b, w) == seq(|b|, _ => lrows[0]);
    }
  }

  /** A left join never loses a left row. */
  lemma {:induction false} LeftTotalCovers(lrows: seq<Row>, kl: nat, rrows: seq<Row>, kr: nat)
    ensures Total(lrows, kl, rrows, kr, LeftJoin) >= |lrows|
  {
    if |lrows| > 0 {
      LeftTotalCovers(lrows[1..], kl, rrows, kr);
    }
  }

  /** The left rows that find no partner on the right. */
  function Unmatched(lrows: seq<Row>, kl: nat, rrows: seq<Row>, kr: nat): seq<Row> {
    Filter(lrows, (l: Row) => |Matches(CellOf(l, kl), rrows, kr)| == 0)
  }

  /** An inner join produces the rows of a left join except one per unmatched
      left row: those rows are the only ones it drops. */
  lemma {:induction false} InnerDropsUnmatched(lrows: seq<Row>, kl: nat, rrows: seq<Row>, kr: nat)
    ensures Total(lrows, kl, rrows, kr, InnerJoin) + |Unmatched(lrows, kl, rrows, kr)| == Total(lrows, kl, rrows, kr, LeftJoin)
  {
    if |lrows| > 0 {
      InnerDropsUnmatched(lrows[1..], kl, rrows, kr);
    }
  }

  /** The right columns that appear in the output. */
  function RightColumns(rcols: seq<string>, rkey: string, dropKey: bool): (out: seq<string>)
    requires rkey in rcols
    ensures dropKey ==> |out| == |rcols| - 1
    ensures !dropKey ==> out == rcols
  {
    if dropKey then
      var k := IndexOf(rcols, rkey);
      rcols[..k] + rcols[k + 1..]
    else rcols
  }

  /** Output column names: overlapping names take `lsuf` on the left and `rsuf`
      on the right. */
  function OutColumns(lcols: seq<string>, rcols: seq<string>, lsuf: string, rsuf: string): (out: seq<string>)
    ensures |out| == |lcols| + |rcols|
  {
    seq(|lcols|, i requires 0 <= i < |lcols| => if lcols[i] in rcols then lcols[i] + lsuf else lcols[i])
    + seq(|rcols|, j requires 0 <= j < |rcols| => if rcols[j] in lcols then rcols[j] + rsuf else rcols[j])
  }

  /** The first name that occurs twice, if any. */
  function FirstDuplicate(s: seq<string>): (d: Option<string>)
    ensures d.None? <==> Distinct(s)
  {
    if |s| == 0 then None
    else if s[0] in s[1..] then Some(s[0])
    else
      var d := FirstDuplicate(s[1..]);
      assert d.None? ==> Distinct(s) by {
        if d.None? {
          forall i, j | 0 <= i < j < |s| ensures s[i] != s[j] {
            if i > 0 {
              assert s[i] == s[1..][i - 1] && s[j] == s[1..][j - 1];
            } else {
              assert s[j] in s[1..];
            }
          }
        }
      }
      d
  }

  /** `left.merge(right, left_on=lkey, right_on=rkey, how=how, suffixes=(lsuf, rsuf))`. */
  function Merge(left: Frame, right: Frame, lkey: string, rkey: string, how: How, lsuf: string, rsuf: string): (r: Result<Frame, Error>)
    requires Valid(left) && Valid(right)
    ensures !Has(left, lkey) ==> r == Err(MissingColumn(lkey))
    ensures Has(left, lkey) && !Has(right, rkey) ==> r == Err(MissingColumn(rkey))
    ensures Has(left, lkey) && Has(right, rkey) ==>
      (r.Ok? <==> Distinct(OutColumns(left.columns, RightColumns(right.columns, rkey, lkey == rkey), lsuf, rsuf)))
    ensures r.Ok? ==> Valid(r.value) && r.value.columns == OutColumns(left.columns, RightColumns(right.columns, rkey, lkey == rkey), lsuf, rsuf)
    ensures r.Ok? ==> |r.value.rows| == Total(left.rows, IndexOf(left.columns, lkey), right.rows, IndexOf(right.columns, rkey), how)
    ensures r.Ok? ==> Prefixes(r.value.rows, |left.columns|) == Expand(left.rows, IndexOf(left.columns, lkey), right.rows, IndexOf(right.columns, rkey), how)
    ensures r.Ok? ==> r.value.rows == JoinRows(left.rows, IndexOf(left.columns, lkey), right.rows, IndexOf(right.columns, rkey),
      lkey == rkey, how, |RightColumns(right.columns, rkey, lkey == rkey)|)
  {
    if !Has(left, lkey) then Err(MissingColumn(lkey))
    else if !Has(right, rkey) then Err(MissingColumn(rkey))
    else
      var dropKey := lkey == rkey;
      var rcols := RightColumns(right.columns, rkey, dropKey);
      var cols := OutColumns(left.columns, rcols, lsuf, rsuf);
      match FirstDuplicate(cols)
      case Some(d) => Err(DuplicateColumn(d))
      case None =>
        var kl := IndexOf(left.columns, lkey);
        var kr := IndexOf(right.columns, rkey);
        var rows := JoinRows(left.rows, kl, right.rows, kr, dropKey, how, |rcols|);
        JoinRowsShape(left.rows, kl, right.rows, kr, dropKey, how, |rcols|, |left.columns|);
        JoinRowsLength(left.rows, kl, right.rows, kr, dropKey, how, |rcols|);
        JoinRowsWidth(left.rows, kl, right.rows, kr, dropKey, how, |left.columns|, |right.columns|, |rcols|);
        Ok(Frame(cols, rows))
  }

  lemma {:induction false} JoinRowsWidth(lrows: seq<Row>, kl: nat, rrows: seq<Row>, kr: nat, dropKey: bool, how: How, lw: nat, rw: nat, width: nat)
    requires kr < rw && width == if dropKey then rw - 1 else rw
    requires forall j :: 0 <= j < |lrows| ==> |lrows[j]| == lw
    requires forall j :: 0 <= j < |rrows| ==> |rrows[j]| == rw
    ensures forall j :: 0 <= j < |JoinRows(lrows, kl, rrows, kr, dropKey, how, width)| ==>
      |JoinRows(lrows, kl, rrows, kr, dropKey, how, width)[j]| == lw + width
  {
    if |lrows| > 0 {
      JoinRowsWidth(lrows[1..], kl, rrows, kr, dropKey, how, lw, rw, width);
      BlockWidth(lrows[0], kl, rrows, kr, dropKey, how, lw, rw, width);
      var b := Block(lrows[0], kl, rrows, kr, dropKey, how, width);
      var rest := JoinRows(lrows[1..], kl, rrows, kr, dropKey, how, width);
      assert forall j :: 0 <= j < |b + rest| ==> (b + rest)[j] == if j < |b| then b[j] else rest[j - |b|];
    }
  }

  lemma BlockWidth(l: Row, kl: nat, rrows: seq<Row>, kr: nat, dropKey: bool, how: How, lw: nat, rw: nat, width: nat)
    requires kr < rw && width == if dropKey then rw - 1 else rw
    requires |l| == lw
    requires forall j :: 0 <= j < |rrows| ==> |rrows[j]| == rw
    ensures forall j :: 0 <= j < |Block(l, kl, rrows, kr, dropKey, how, width)| ==>
      |Block(l, kl, rrows, kr, dropKey, how, width)[j]| == lw + width
  {
    var ms := Matches(CellOf(l, kl), rrows, kr);
    assert forall m :: m in rrows ==> |m| == rw;
    assert forall j :: 0 <= j < |ms| ==> ms[j] in ms;
  }

  /** With at most one match per left row, a left join produces exactly one
      output row per left row: the left row followed by its match, or by nulls. */
  lemma {:induction false} JoinRowsUnique(lrows: seq<Row>, kl: nat, rrows: seq<Row>, kr: nat, dropKey: bool, width: nat)
    requires forall i :: 0 <= i < |lrows| ==> |Matches(CellOf(lrows[i], kl), rrows, kr)| <= 1
    ensures |JoinRows(lrows, kl, rrows, kr, dropKey, LeftJoin, width)| == |lrows|
    ensures forall i :: 0 <= i < |lrows| ==>
      JoinRows(lrows, kl, rrows, kr, dropKey, LeftJoin, width)[i] == Block(lrows[i], kl, rrows, kr, dropKey, LeftJoin, width)[0]
  {
    if |lrows| > 0 {
      var rest := lrows[1..];
      assert forall i :: 0 <= i < |rest| ==> rest[i] == lrows[i + 1];
      JoinRowsUnique(rest, kl, rrows, kr, dropKey, width);
      var b := Block(lrows[0], kl, rrows, kr, dropKey, LeftJoin, width);
      assert |b| == 1;
      var out := JoinRows(lrows, kl, rrows, kr, dropKey, LeftJoin, width);
      assert out == b + JoinRows(rest, kl, rrows, kr, dropKey, LeftJoin, width);
      forall i | 0 <= i < |lrows|
        ensures out[i] == Block(lrows[i], kl, rrows, kr, dropKey, LeftJoin, width)[0]
      {
        if i > 0 {
          assert out[i] == JoinRows(rest, kl, rrows, kr, dropKey, LeftJoin, width)[i - 1];
        }
      }
    }
  }

  /** The one output row of a left row with at most one match. */
  lemma BlockRow(l: Row, kl: nat, rrows: seq<Row>, kr: nat, dropKey: bool, width: nat)
    requires |Matches(CellOf(l, kl), rrows, kr)| <= 1
    ensures var b := Block(l, kl, rrows, kr, dropKey, LeftJoin, width);
      |b| == 1 &&
      (if exists j :: 0 <= j < |rrows| && KeyEq(CellOf(l, kl), CellOf(rrows[j], kr))
       then exists j :: 0 <= j < |rrows| && KeyEq(CellOf(l, kl), CellOf(rrows[j], kr)) && b[0] == l + RightPart(rrows[j], kr, dropKey)
       else b[0] == l + Repeat(width, None))
  {
    var p := (m: Row) => KeyEq(CellOf(l, kl), CellOf(m, kr));
    var ms := Matches(CellOf(l, kl), rrows, kr);
    if exists j :: 0 <= j < |rrows| && KeyEq(CellOf(l, kl), CellOf(rrows[j], kr)) {
      var j :| 0 <= j < |rrows| && KeyEq(CellOf(l, kl), CellOf(rrows[j], kr));
      FilterKeeps(rrows, p, rrows[j]);
      assert |ms| == 1;
      assert ms[0] in rrows;
      var j' :| 0 <= j' < |rrows| && rrows[j'] == ms[0];
      assert KeyEq(CellOf(l, kl), CellOf(rrows[j'], kr));
    }
  }

  /** Without a shared name no suffix is applied: the output columns are the left
      columns followed by the right ones. */
  lemma OutColumnsDisjoint(lcols: seq<string>, rcols: seq<string>, lsuf: string, rsuf: string)
    requires forall c :: c in lcols ==> c !in rcols
    ensures OutColumns(lcols, rcols, lsuf, rsuf) == lcols + rcols
  {
  }

  /** A right column that appears under its own name in the output was not a left
      column, provided the name does not end like a suffix. */
  lemma OutColumnsUnsuffixed(lcols: seq<string>, rcols: seq<string>, lsuf: string, rsuf: string, c: string)
    requires c in OutColumns(lcols, rcols, lsuf, rsuf) && c in rcols
    requires |c| > 0 && |lsuf| > 0 && |rsuf| > 0
    requires c[|c| - 1] != lsuf[|lsuf| - 1] && c[|c| - 1] != rsuf[|rsuf| - 1]
    ensures c !in lcols
  {
    var out := OutColumns(lcols, rcols, lsuf, rsuf);
    var k :| 0 <= k < |out| && out[k] == c;
  }

  /** Two keys that match a third match each other. */
  lemma KeyEqShared(a: Cell, b: Cell, c: Cell)
    requires KeyEq(a, b) && KeyEq(a, c)
    ensures KeyEq(b, c)
  {
  }

  /** When no two right rows carry matching keys, a key matches at most one of them. */
  lemma MatchesAtMostOne(key: Cell, rrows: seq<Row>, kr: nat)
    requires forall a, b :: 0 <= a < b < |rrows| ==> !KeyEq(CellOf(rrows[a], kr), CellOf(rrows[b], kr))
    ensures |Matches(key, rrows, kr)| <= 1
  {
    var p := (m: Row) => KeyEq(key, CellOf(m, kr));
    forall a, b | 0 <= a < |rrows| && 0 <= b < |rrows| && p(rrows[a]) && p(rrows[b]) ensures a == b {
      KeyEqShared(key, CellOf(rrows[a], kr), CellOf(rrows[b], kr));
      KeyEqShared(key, CellOf(rrows[b], kr), CellOf(rrows[a], kr));
    }
    FilterAtMostOne(rrows, p);
  }
}
