/** The four ordered vulnerability tiers, their labels, the right-closed cut that
    turns a score into a tier (`pd.cut` with bins -inf, -0.5, 0, 0.5, +inf), the
    numeric target the ML step trains on, and the level-name lookup of the report
    prompt. */
module Levels {
  import opened Wrappers
  import opened Frames

  datatype Tier = Baixa | Media | Alta | MuitoAlta

  /** The category label pandas attaches to the tier. */
  function Label(t: Tier): string {
    match t
    case Baixa => "Baixa"
    case Media => "Média"
    case Alta => "Alta"
    case MuitoAlta => "Muito Alta"
  }

  /** Position of the tier in the label list, which is also the ML target code. */
  function Rank(t: Tier): nat {
    match t
    case Baixa => 0
    case Media => 1
    case Alta => 2
    case MuitoAlta => 3
  }

  /** How many of the cut points -0.5, 0 and 0.5 lie strictly below `s`. */
  function CutsBelow(s: real): nat {
    (if -0.5 < s then 1 else 0) + (if 0.0 < s then 1 else 0) + (if 0.5 < s then 1 else 0)
  }

  /** The right-closed interval of the score: (-inf,-0.5], (-0.5,0], (0,0.5], (0.5,+inf). */
  function TierOf(s: real): (t: Tier)
    ensures Rank(t) == CutsBelow(s)
  {
    if s <= -0.5 then Baixa
    else if s <= 0.0 then Media
    else if s <= 0.5 then Alta
    else MuitoAlta
  }

  /** Each tier is exactly one interval of the score line, closed on the right. */
  lemma TierIntervals(s: real)
    ensures TierOf(s) == Baixa <==> s <= -0.5
    ensures TierOf(s) == Media <==> -0.5 < s <= 0.0
    ensures TierOf(s) == Alta <==> 0.0 < s <= 0.5
    ensures TierOf(s) == MuitoAlta <==> 0.5 < s
  {
    assert Rank(TierOf(s)) == CutsBelow(s);
  }

  /** A higher score never lands in a lower tier. */
  lemma TierMonotone(s: real, u: real)
    requires s <= u
    ensures Rank(TierOf(s)) <= Rank(TierOf(u))
  {
    assert CutsBelow(s) <= CutsBelow(u);
  }

  /** The tier with a given rank, when the rank is one of 0..3. */
  function FromRank(n: int): (t: Option<Tier>)
    ensures t.Some? <==> 0 <= n <= 3
    ensures t.Some? ==> Rank(t.value) == n
  {
    if n == 0 then Some(Baixa)
    else if n == 1 then Some(Media)
    else if n == 2 then Some(Alta)
    else if n == 3 then Some(MuitoAlta)
    else None
  }

  /** The level-name dictionary lookup with `'Desconhecido'` as the default. */
  function LevelName(n: int): (name: string)
    ensures 0 <= n <= 3 ==> name == Label(FromRank(n).value)
    ensures !(0 <= n <= 3) ==> name == "Desconhecido"
  {
    match FromRank(n)
    case Some(t) => Label(t)
    case None => "Desconhecido"
  }

  /** Naming a tier's rank gives back its label, and the fallback name is never a label. */
  lemma LevelNameOfRank(t: Tier, n: int)
    ensures LevelName(Rank(t)) == Label(t)
    ensures LevelName(n) == "Desconhecido" <==> !(0 <= n <= 3)
  {
    assert FromRank(Rank(t)) == Some(t);
  }

  /** `nivel_vulnerabilidade.map({'Baixa': 0, 'Média': 1, 'Alta': 2, 'Muito Alta': 3})`:
      a cell holding a label becomes its code; anything else becomes NaN. */
  function Target(c: Cell): (y: Cell)
    ensures y.Some? ==> y.value.Int? && 0 <= y.value.i <= 3
  {
    match c
    case Some(Text(s)) =>
      if s == "Baixa" then Some(Int(0))
      else if s == "Média" then Some(Int(1))
      else if s == "Alta" then Some(Int(2))
      else if s == "Muito Alta" then Some(Int(3))
      else None
    case _ => None
  }

  /** The target code of a tier label is the tier's rank: encoding the tier as a
      label and mapping the label back loses nothing. */
  lemma TargetOfLabel(t: Tier)
    ensures Target(Some(Text(Label(t)))) == Some(Int(Rank(t)))
    ensures FromRank(Target(Some(Text(Label(t)))).value.i) == Some(t)
  {
  }

  /** The tier cell of a score cell: NaN stays NaN (pandas leaves it uncategorised). */
  function TierCell(c: Cell): (r: Cell)
    ensures Num(c).None? <==> r.None?
    ensures Num(c).Some? ==> r == Some(Text(Label(TierOf(Num(c).value))))
  {
    match Num(c)
    case Some(s) => Some(Text(Label(TierOf(s))))
    case None => None
  }

  /** The target code of a tier cell is the rank of the score's tier; a NaN
      score gives a NaN target. */
  lemma TargetOfTier(c: Cell)
    ensures Target(TierCell(c)) == if Num(c).Some? then Some(Int(Rank(TierOf(Num(c).value)))) else None
  {
    if Num(c).Some? {
      TargetOfLabel(TierOf(Num(c).value));
    }
  }
}
