/** `compute_risk_score(df)`: a base score per row (the existing Risk_Score column, or
    a random integer in 1..9 when there is none), four additive signals, and a clamp
    to [1, 10], all written into the frame in place. */
module RiskScore {
  import opened Table
  import opened Aggregate

  const RiskScoreCol: string := "Risk_Score"
  const AdjustedCol: string := "Risk_Score_Adjusted"
  const AmountCol: string := "Transaction_Amount"
  const BalanceCol: string := "Account_Balance"
  const ReportedCol: string := "Reported_Amount"
  const CountryCol: string := "Country"
  const HighRiskCountries: seq<Value> := [Str("North Korea"), Str("Iran"), Str("Syria")]
  const LargeAmount: real := 50000.0

  /** `np.clip(x, 1, 10)`. */
  function Clip(x: real): (r: real)
    ensures 1.0 <= r <= 10.0
    ensures 1.0 <= x <= 10.0 ==> r == x
  {
    if x < 1.0 then 1.0 else if x > 10.0 then 10.0 else x
  }

  /** The adjusted score of a row with base `x` and the four signals given. */
  function Score(x: real, largeAmount: bool, negativeBalance: bool, mismatch: bool, highRisk: bool): real
  {
    Clip(x + (if largeAmount then 2.0 else 0.0) + (if negativeBalance then 3.0 else 0.0)
           + (if mismatch then 1.5 else 0.0) + (if highRisk then 4.0 else 0.0))
  }

  /** Whether signal k fires for a row: 0 an amount above 50000, 1 a negative balance,
      2 an amount that differs from the reported one, 3 a high-risk country. */
  function Signal(r: Row, k: nat): bool
    requires k < 4
  {
    match k
    case 0 => Compare(Gt, Get(r, AmountCol), Num(LargeAmount)) == Ok(true)
    case 1 => Compare(Lt, Get(r, BalanceCol), Num(0.0)) == Ok(true)
    case 2 => Compare(Ne, Get(r, AmountCol), Get(r, ReportedCol)) == Ok(true)
    case _ => Get(r, CountryCol) in HighRiskCountries
  }

  function Weight(k: nat): real
  {
    match k
    case 0 => 2.0
    case 1 => 3.0
    case 2 => 1.5
    case _ => 4.0
  }

  /** The reference: a row's adjusted score from its own cells and its base alone. */
  function RowScore(x: real, r: Row): real
  {
    Score(x, Signal(r, 0), Signal(r, 1), Signal(r, 2), Signal(r, 3))
  }

  // ---------------------------------------------------------------------------
  // The staged computation on the whole frame.

  /** `.astype(float)` of one cell: numbers and missing values stay, a string becomes
      its number or raises. */
  function AsFloat(v: Value): (r: Outcome<Value>)
    ensures r.Ok? ==> !r.value.Str?
    ensures v.Num? || v.Null? ==> r == Ok(v)
  {
    match v
    case Str(s) => (match ParseNumber(s) case Some(x) => Ok(Num(x)) case None => Raised)
    case _ => Ok(v)
  }

  function AsFloats(cells: seq<Value>): (r: Outcome<seq<Value>>)
    ensures r.Ok? ==> |r.value| == |cells| && forall i :: 0 <= i < |cells| ==> AsFloat(cells[i]) == Ok(r.value[i])
    ensures r.Raised? <==> exists i :: 0 <= i < |cells| && AsFloat(cells[i]).Raised?
  {
    if cells == [] then Ok([])
    else
      var n := |cells| - 1;
      match (AsFloats(cells[..n]), AsFloat(cells[n]))
      case (Ok(vs), Ok(v)) => Ok(vs + [v])
      case _ => Raised
  }

  /** `np.random.randint(1, 10, size=len(df))`, given the integers it drew. */
  function Draws(draws: seq<int>): (vs: seq<Value>)
    ensures |vs| == |draws| && forall i :: 0 <= i < |draws| ==> vs[i] == Num(draws[i] as real)
  {
    seq(|draws|, i requires 0 <= i < |draws| => Num(draws[i] as real))
  }

  /** `df[col] = vals`. */
  function WithColumn(rows: seq<Row>, col: string, vals: seq<Value>): (r: seq<Row>)
    requires |vals| == |rows|
    ensures |r| == |rows| && forall i :: 0 <= i < |rows| ==> r[i] == rows[i][col := vals[i]]
  {
    seq(|rows|, i requires 0 <= i < |rows| => rows[i][col := vals[i]])
  }

  /** A missing score stays missing under `+=`. */
  function Plus(v: Value, d: real): Value
  {
    if v.Num? then Num(v.n + d) else v
  }

  function ClipValue(v: Value): Value
  {
    if v.Num? then Num(Clip(v.n)) else v
  }

  /** `df.loc[mask, "Risk_Score_Adjusted"] += delta`. */
  function Bumped(rows: seq<Row>, mask: seq<bool>, delta: real): (r: seq<Row>)
    requires |mask| == |rows| && forall i :: 0 <= i < |rows| ==> AdjustedCol in rows[i]
    ensures |r| == |rows| && forall i :: 0 <= i < |rows| ==> r[i] == if mask[i] then rows[i][AdjustedCol := Plus(rows[i][AdjustedCol], delta)] else rows[i]
  {
    seq(|rows|, i requires 0 <= i < |rows| => if mask[i] then rows[i][AdjustedCol := Plus(rows[i][AdjustedCol], delta)] else rows[i])
  }

  /** `df["Risk_Score_Adjusted"] = np.clip(df["Risk_Score_Adjusted"], 1, 10)`. */
  function Clipped(rows: seq<Row>): (r: seq<Row>)
    requires forall i :: 0 <= i < |rows| ==> AdjustedCol in rows[i]
    ensures |r| == |rows| && forall i :: 0 <= i < |rows| ==> r[i] == rows[i][AdjustedCol := ClipValue(rows[i][AdjustedCol])]
  {
    seq(|rows|, i requires 0 <= i < |rows| => rows[i][AdjustedCol := ClipValue(rows[i][AdjustedCol])])
  }

  /** The mask of signal k over the frame; it raises when a column it reads is missing
      or when a comparison mixes text and numbers. */
  function SignalMask(f: Frame, k: nat): (r: Outcome<seq<bool>>)
    requires WellFormed(f) && k < 4
    ensures r.Ok? ==> |r.value| == |f.rows| && forall i :: 0 <= i < |f.rows| ==> r.value[i] == Signal(f.rows[i], k)
  {
    match k
    case 0 => if AmountCol in f.columns then CompareColumn(Gt, Column(f.rows, AmountCol), Num(LargeAmount)) else Raised
    case 1 => if BalanceCol in f.columns then CompareColumn(Lt, Column(f.rows, BalanceCol), Num(0.0)) else Raised
    case 2 =>
      if AmountCol in f.columns && ReportedCol in f.columns
      then CompareEach(Ne, Column(f.rows, AmountCol), Column(f.rows, ReportedCol)) else Raised
    case _ => if CountryCol in f.columns then Ok(IsIn(Column(f.rows, CountryCol), HighRiskCountries)) else Raised
  }

  /** The frame after the call: its columns, its rows, and whether it raised part-way
      (the frame keeps whatever was written before the exception). */
  datatype Scored = Scored(columns: set<string>, rows: seq<Row>, raised: bool)

  /** The base-score columns: the existing Risk_Score, or the drawn integers. */
  function WithBase(columns: set<string>, rows: seq<Row>, draws: seq<int>): (f: Frame)
    requires WellFormed(Frame(columns, rows)) && |draws| == |rows|
    ensures WellFormed(f) && RiskScoreCol in f.columns && |f.rows| == |rows|
  {
    if RiskScoreCol in columns then Frame(columns, rows)
    else Frame(columns + {RiskScoreCol}, WithColumn(rows, RiskScoreCol, Draws(draws)))
  }

  function RiskSpec(columns: set<string>, rows: seq<Row>, draws: seq<int>): (s: Scored)
    requires WellFormed(Frame(columns, rows)) && |draws| == |rows|
    ensures |s.rows| == |rows|
  {
    var f := WithBase(columns, rows, draws);
    match AsFloats(Column(f.rows, RiskScoreCol))
    case Raised => Scored(f.columns, f.rows, true)
    case Ok(base) => Signals(Started(f, base), 0)
  }

  /** The frame once `Risk_Score_Adjusted` holds the base scores. */
  function Started(f: Frame, base: seq<Value>): (g: Frame)
    requires WellFormed(f) && |base| == |f.rows|
    ensures WellFormed(g) && AdjustedCol in g.columns && |g.rows| == |f.rows|
    ensures forall i :: 0 <= i < |f.rows| ==> g.rows[i] == f.rows[i][AdjustedCol := base[i]]
  {
    Frame(f.columns + {AdjustedCol}, WithColumn(f.rows, AdjustedCol, base))
  }

  /** Signals k, k+1, ... applied in turn, then the clamp. */
  function Signals(f: Frame, k: nat): (s: Scored)
    requires WellFormed(f) && AdjustedCol in f.columns && k <= 4
    ensures |s.rows| == |f.rows| && s.columns == f.columns
    decreases 4 - k
  {
    if k == 4 then Scored(f.columns, Clipped(f.rows), false)
    else
      match SignalMask(f, k)
      case Raised => Scored(f.columns, f.rows, true)
      case Ok(m) => Signals(Frame(f.columns, Bumped(f.rows, m, Weight(k))), k + 1)
  }

  // ---------------------------------------------------------------------------
  // The in-place computation.

  method ComputeRiskScore(df: DataFrame, draws: seq<int>) returns (raised: bool)
    requires df.Valid() && |draws| == df.rows.Length
    modifies df, df.rows
    ensures df.Valid()
    ensures old(WellFormed(Frame(df.columns, df.rows[..])))
    ensures Scored(df.columns, df.rows[..], raised) == RiskSpec(old(df.columns), old(df.rows[..]), draws)
  {
    assert WellFormed(Frame(df.columns, df.rows[..]));
    ghost var spec := RiskSpec(df.columns, df.rows[..], draws);
    raised := AddScores(df, draws);
    if raised {
      return;
    }
    assert spec == Signals(Frame(df.columns, df.rows[..]), 0);
    // The four masked `+=` statements, in source order.
    var signal := 0;
    raised := ApplySignal(df, signal);
    if raised { return; }
    signal := signal + 1;
    raised := ApplySignal(df, signal);
    if raised { return; }
    signal := signal + 1;
    raised := ApplySignal(df, signal);
    if raised { return; }
    signal := signal + 1;
    raised := ApplySignal(df, signal);
    if raised { return; }
    signal := signal + 1;
    ClipAdjusted(df);
  }

  /** The base score and the `astype(float)` copy that the signals adjust. */
  method AddScores(df: DataFrame, draws: seq<int>) returns (raised: bool)
    requires df.Valid() && |draws| == df.rows.Length
    modifies df, df.rows
    ensures df.Valid()
    ensures old(WellFormed(Frame(df.columns, df.rows[..])))
    ensures raised ==> Scored(df.columns, df.rows[..], true) == RiskSpec(old(df.columns), old(df.rows[..]), draws)
    ensures !raised ==> AdjustedCol in df.columns
    ensures !raised ==> Signals(Frame(df.columns, df.rows[..]), 0) == RiskSpec(old(df.columns), old(df.rows[..]), draws)
  {
    assert WellFormed(Frame(df.columns, df.rows[..]));
    ghost var f := WithBase(df.columns, df.rows[..], draws);
    if RiskScoreCol !in df.columns {
      AddColumn(df, RiskScoreCol, Draws(draws));
    }
    assert Frame(df.columns, df.rows[..]) == f;
    var base := AsFloats(Column(df.rows[..], RiskScoreCol));
    if base.Raised? {
      return true;
    }
    AddColumn(df, AdjustedCol, base.value);
    return false;
  }

  /** `df[col] = vals` on the frame itself. */
  method AddColumn(df: DataFrame, col: string, vals: seq<Value>)
    requires df.Valid() && |vals| == df.rows.Length
    modifies df, df.rows
    ensures df.Valid()
    ensures df.columns == old(df.columns) + {col}
    ensures df.rows[..] == WithColumn(old(df.rows[..]), col, vals)
  {
    ghost var before := df.rows[..];
    ghost var cols := df.columns;
    df.columns := df.columns + {col};
    for i := 0 to df.rows.Length
      invariant df.columns == cols + {col}
      invariant forall j :: 0 <= j < i ==> df.rows[j] == before[j][col := vals[j]]
      invariant forall j :: i <= j < df.rows.Length ==> df.rows[j] == before[j]
    {
      df.rows[i] := df.rows[i][col := vals[i]];
    }
    assert df.rows[..] == WithColumn(before, col, vals);
    assert forall j :: 0 <= j < df.rows.Length ==> df.rows[j].Keys == before[j].Keys + {col};
  }

  /** One `df.loc[mask, "Risk_Score_Adjusted"] += weight` statement, mask included. */
  method ApplySignal(df: DataFrame, k: nat) returns (raised: bool)
    requires df.Valid() && AdjustedCol in df.columns && k < 4
    modifies df.rows
    ensures df.Valid()
    ensures old(WellFormed(Frame(df.columns, df.rows[..])))
    ensures Signals(Frame(df.columns, old(df.rows[..])), k) ==
              if raised then Scored(df.columns, df.rows[..], true) else Signals(Frame(df.columns, df.rows[..]), k + 1)
  {
    assert WellFormed(Frame(df.columns, df.rows[..]));
    var mask := SignalMask(Frame(df.columns, df.rows[..]), k);
    if mask.Raised? {
      return true;
    }
    ghost var before := df.rows[..];
    var delta := Weight(k);
    for i := 0 to df.rows.Length
      invariant forall j :: 0 <= j < i ==>
                  df.rows[j] == if mask.value[j] then before[j][AdjustedCol := Plus(before[j][AdjustedCol], delta)] else before[j]
      invariant forall j :: i <= j < df.rows.Length ==> df.rows[j] == before[j]
    {
      if mask.value[i] {
        df.rows[i] := df.rows[i][AdjustedCol := Plus(df.rows[i][AdjustedCol], delta)];
      }
    }
    assert df.rows[..] == Bumped(before, mask.value, delta);
    return false;
  }

  /** The clamp on the frame itself. */
  method ClipAdjusted(df: DataFrame)
    requires df.Valid() && AdjustedCol in df.columns
    modifies df.rows
    ensures df.Valid()
    ensures old(forall i :: 0 <= i < df.rows.Length ==> AdjustedCol in df.rows[i])
    ensures df.rows[..] == Clipped(old(df.rows[..]))
  {
    ghost var before := df.rows[..];
    for i := 0 to df.rows.Length
      invariant forall j :: 0 <= j < i ==> df.rows[j] == before[j][AdjustedCol := ClipValue(before[j][AdjustedCol])]
      invariant forall j :: i <= j < df.rows.Length ==> df.rows[j] == before[j]
    {
      df.rows[i] := df.rows[i][AdjustedCol := ClipValue(df.rows[i][AdjustedCol])];
    }
    assert df.rows[..] == Clipped(before);
  }

  // ---------------------------------------------------------------------------
  // What the score promises.

  /** Signal k applied to a score, then signals k+1, ... for the same row. */
  function BumpFrom(v: Value, r: Row, k: nat): Value
    requires k <= 4
    decreases 4 - k
  {
    if k == 4 then v else BumpFrom(if Signal(r, k) then Plus(v, Weight(k)) else v, r, k + 1)
  }

  /** The adjusted cell the reference gives for a row with base cell `base`. */
  function AdjustedValue(base: Value, r: Row): Value
  {
    if base.Num? then Num(RowScore(base.n, r)) else base
  }

  /** Writing the score column leaves every signal as it was. */
  lemma SignalIgnoresScores(r: Row, col: string, v: Value, k: nat)
    requires k < 4 && (col == AdjustedCol || col == RiskScoreCol)
    ensures Signal(r[col := v], k) == Signal(r, k)
  {
    assert Get(r[col := v], AmountCol) == Get(r, AmountCol);
    assert Get(r[col := v], BalanceCol) == Get(r, BalanceCol);
    assert Get(r[col := v], ReportedCol) == Get(r, ReportedCol);
    assert Get(r[col := v], CountryCol) == Get(r, CountryCol);
  }

  lemma {:induction false} SignalsRowwise(f: Frame, k: nat, i: nat)
    requires WellFormed(f) && AdjustedCol in f.columns && k <= 4 && i < |f.rows|
    requires !Signals(f, k).raised
    ensures |Signals(f, k).rows| == |f.rows| && Signals(f, k).columns == f.columns
    ensures Signals(f, k).rows[i] == f.rows[i][AdjustedCol := ClipValue(BumpFrom(f.rows[i][AdjustedCol], f.rows[i], k))]
    decreases 4 - k
  {
    if k < 4 {
      var m := SignalMask(f, k).value;
      var g := Frame(f.columns, Bumped(f.rows, m, Weight(k)));
      assert WellFormed(g);
      SignalsRowwise(g, k + 1, i);
      var r := f.rows[i];
      var v := if Signal(r, k) then Plus(r[AdjustedCol], Weight(k)) else r[AdjustedCol];
      assert g.rows[i] == r[AdjustedCol := v];
      forall j | k + 1 <= j < 4 ensures Signal(g.rows[i], j) == Signal(r, j) {
        SignalIgnoresScores(r, AdjustedCol, v, j);
      }
      BumpFromSameSignals(v, g.rows[i], r, k + 1);
      assert g.rows[i][AdjustedCol := ClipValue(BumpFrom(v, r, k + 1))] == r[AdjustedCol := ClipValue(BumpFrom(v, r, k + 1))];
    }
  }

  lemma {:induction false} BumpFromSameSignals(v: Value, r: Row, s: Row, k: nat)
    requires k <= 4 && forall j :: k <= j < 4 ==> Signal(r, j) == Signal(s, j)
    ensures BumpFrom(v, r, k) == BumpFrom(v, s, k)
    decreases 4 - k
  {
    if k < 4 {
      BumpFromSameSignals(if Signal(r, k) then Plus(v, Weight(k)) else v, r, s, k + 1);
    }
  }

  lemma BumpFromScore(v: Value, r: Row)
    ensures ClipValue(BumpFrom(v, r, 0)) == AdjustedValue(v, r)
  {
    var a, b, c, d := Signal(r, 0), Signal(r, 1), Signal(r, 2), Signal(r, 3);
    var v1 := if a then Plus(v, 2.0) else v;
    var v2 := if b then Plus(v1, 3.0) else v1;
    var v3 := if c then Plus(v2, 1.5) else v2;
    var v4 := if d then Plus(v3, 4.0) else v3;
    assert BumpFrom(v, r, 0) == v4 by {
      assert BumpFrom(v4, r, 4) == v4;
      assert BumpFrom(v3, r, 3) == v4;
      assert BumpFrom(v2, r, 2) == v4;
      assert BumpFrom(v1, r, 1) == v4;
    }
    if v.Num? {
      assert v4 == Num(v.n + (if a then 2.0 else 0.0) + (if b then 3.0 else 0.0)
                         + (if c then 1.5 else 0.0) + (if d then 4.0 else 0.0));
    }
  }

  /** Each row's adjusted score depends on that row alone: it is the reference score of
      its own base and cells. Nothing else changes: the rows keep their number and
      every other cell, and only Risk_Score (when it was absent) and
      Risk_Score_Adjusted are added. */
  lemma RiskScoreRowwise(columns: set<string>, rows: seq<Row>, draws: seq<int>, i: nat)
    requires WellFormed(Frame(columns, rows)) && |draws| == |rows| && i < |rows|
    requires !RiskSpec(columns, rows, draws).raised
    ensures var s, f := RiskSpec(columns, rows, draws), WithBase(columns, rows, draws);
            && s.columns == columns + {RiskScoreCol, AdjustedCol}
            && |s.rows| == |rows|
            && AsFloat(f.rows[i][RiskScoreCol]).Ok?
            && s.rows[i] == f.rows[i][AdjustedCol := AdjustedValue(AsFloat(f.rows[i][RiskScoreCol]).value, rows[i])]
    ensures forall col :: col in rows[i] && col != AdjustedCol && col != RiskScoreCol ==>
              RiskSpec(columns, rows, draws).rows[i][col] == rows[i][col]
  {
    var f := WithBase(columns, rows, draws);
    var cells := Column(f.rows, RiskScoreCol);
    var base := AsFloats(cells).value;
    assert AsFloat(cells[i]) == Ok(base[i]);
    StartedRow(f, base, columns, rows, draws, i);
  }

  lemma StartedRow(f: Frame, base: seq<Value>, columns: set<string>, rows: seq<Row>, draws: seq<int>, i: nat)
    requires WellFormed(Frame(columns, rows)) && |draws| == |rows| && i < |rows|
    requires f == WithBase(columns, rows, draws) && |base| == |rows|
    requires !Signals(Started(f, base), 0).raised
    ensures Signals(Started(f, base), 0).columns == columns + {RiskScoreCol, AdjustedCol}
    ensures |Signals(Started(f, base), 0).rows| == |rows|
    ensures Signals(Started(f, base), 0).rows[i] == f.rows[i][AdjustedCol := AdjustedValue(base[i], rows[i])]
  {
    var g := Started(f, base);
    SignalsRowwise(g, 0, i);
    var score := ClipValue(BumpFrom(base[i], g.rows[i], 0));
    assert score == AdjustedValue(base[i], rows[i]) by {
      StartedSignals(f, base, columns, rows, draws, i);
      BumpFromSameSignals(base[i], g.rows[i], rows[i], 0);
      BumpFromScore(base[i], rows[i]);
    }
    SetTwice(f.rows[i], AdjustedCol, base[i], score);
  }

  /** Writing a cell twice keeps the second value. */
  lemma SetTwice(r: Row, col: string, v: Value, w: Value)
    ensures r[col := v][col := w] == r[col := w]
  {
    assert r[col := v][col := w].Keys == r[col := w].Keys;
  }

  lemma StartedSignals(f: Frame, base: seq<Value>, columns: set<string>, rows: seq<Row>, draws: seq<int>, i: nat)
    requires WellFormed(Frame(columns, rows)) && |draws| == |rows| && i < |rows|
    requires f == WithBase(columns, rows, draws) && |base| == |rows|
    ensures forall j :: 0 <= j < 4 ==> Signal(Started(f, base).rows[i], j) == Signal(rows[i], j)
  {
    forall j | 0 <= j < 4 ensures Signal(Started(f, base).rows[i], j) == Signal(rows[i], j) {
      SignalIgnoresScores(f.rows[i], AdjustedCol, base[i], j);
      if RiskScoreCol !in columns {
        SignalIgnoresScores(rows[i], RiskScoreCol, Num(draws[i] as real), j);
      }
    }
  }

  /** Every adjusted score lies in [1, 10], unless its base was missing. */
  lemma ScoresInRange(columns: set<string>, rows: seq<Row>, draws: seq<int>, i: nat)
    requires WellFormed(Frame(columns, rows)) && |draws| == |rows| && i < |rows|
    requires !RiskSpec(columns, rows, draws).raised
    ensures var a := RiskSpec(columns, rows, draws).rows[i][AdjustedCol];
            a.Null? || (a.Num? && 1.0 <= a.n <= 10.0)
  {
    RiskScoreRowwise(columns, rows, draws, i);
    var f := WithBase(columns, rows, draws);
    AdjustedInRange(AsFloat(f.rows[i][RiskScoreCol]).value, rows[i]);
  }

  lemma AdjustedInRange(b: Value, r: Row)
    requires !b.Str?
    ensures var a := AdjustedValue(b, r); a.Null? || (a.Num? && 1.0 <= a.n <= 10.0)
  {
  }

  /** When the frame had no Risk_Score column, each row's base is the integer drawn for
      it and its adjusted score is the reference score of that base. */
  lemma DrawnBase(columns: set<string>, rows: seq<Row>, draws: seq<int>, i: nat)
    requires WellFormed(Frame(columns, rows)) && |draws| == |rows| && i < |rows|
    requires RiskScoreCol !in columns
    requires !RiskSpec(columns, rows, draws).raised
    ensures RiskSpec(columns, rows, draws).rows[i][RiskScoreCol] == Num(draws[i] as real)
    ensures RiskSpec(columns, rows, draws).rows[i][AdjustedCol] == Num(RowScore(draws[i] as real, rows[i]))
  {
    RiskScoreRowwise(columns, rows, draws, i);
    var f := WithBase(columns, rows, draws);
    assert f.rows[i][RiskScoreCol] == Num(draws[i] as real);
  }

  /** The thresholds are strict: an amount of exactly 50000 or a balance of exactly 0
      adds nothing. In general the amount signal fires exactly for a number above
      50000, the balance signal for a negative number, the mismatch signal unless both
      amounts are present and equal, and the country signal for the three listed
      countries. */
  lemma SignalConditions(r: Row)
    ensures Get(r, AmountCol) == Num(LargeAmount) ==> !Signal(r, 0)
    ensures Get(r, BalanceCol) == Num(0.0) ==> !Signal(r, 1)
    ensures Get(r, AmountCol).Num? ==> (Signal(r, 0) <==> Get(r, AmountCol).n > 50000.0)
    ensures Get(r, BalanceCol).Num? ==> (Signal(r, 1) <==> Get(r, BalanceCol).n < 0.0)
    ensures Signal(r, 2) <==> !(Get(r, AmountCol) == Get(r, ReportedCol) && Get(r, AmountCol) != Null)
    ensures Signal(r, 3) <==> Get(r, CountryCol) in {Str("North Korea"), Str("Iran"), Str("Syria")}
  {
  }

  /** With no signal firing, a base already in [1, 10] is the adjusted score. */
  lemma NoSignalKeepsBase(x: real, r: Row)
    requires 1.0 <= x <= 10.0
    requires !Signal(r, 0) && !Signal(r, 1) && !Signal(r, 2) && !Signal(r, 3)
    ensures RowScore(x, r) == x
  {
  }

  /** A signal that fires never lowers the score, nor does a higher base. */
  lemma ScoreMonotone(x: real, y: real, a: bool, b: bool, c: bool, d: bool, a': bool, b': bool, c': bool, d': bool)
    requires x <= y && (a ==> a') && (b ==> b') && (c ==> c') && (d ==> d')
    ensures Score(x, a, b, c, d) <= Score(y, a', b', c', d')
  {
  }

  /** The +4 of a high-risk country alone shows in full exactly when the base is at
      most 6; above that the clamp cuts it. */
  lemma HighRiskAloneVisibleUpToSix(x: real)
    requires x >= 1.0
    ensures Score(x, false, false, false, true) == x + 4.0 <==> x <= 6.0
  {
  }

  /** Large amount, negative balance and a high-risk country together add 9 before the
      clamp: the result is the base plus 9 only for a base of 1, and the base plus 7
      only for a base of 3. */
  lemma ThreeSignalsClamped(x: real)
    requires 1.0 <= x <= 9.0
    ensures Score(x, true, true, false, true) == x + 9.0 <==> x == 1.0
    ensures Score(x, true, true, false, true) == x + 7.0 <==> x == 3.0
  {
  }

  /** `np.random.randint(1, 10)` draws from 1..9: with such draws every base of a frame
      that had no Risk_Score column lies in 1..9. */
  lemma DrawnBasesInRange(columns: set<string>, rows: seq<Row>, draws: seq<int>)
    requires WellFormed(Frame(columns, rows)) && |draws| == |rows|
    requires RiskScoreCol !in columns
    requires !RiskSpec(columns, rows, draws).raised
    requires forall j :: 0 <= j < |draws| ==> 1 <= draws[j] <= 9
    ensures forall j :: 0 <= j < |rows| ==> DrawnInRange(RiskSpec(columns, rows, draws).rows[j])
  {
    var out := RiskSpec(columns, rows, draws).rows;
    forall j | 0 <= j < |rows|
      ensures DrawnInRange(out[j])
    {
      var f := WithBase(columns, rows, draws);
      RiskScoreRowwise(columns, rows, draws, j);
      assert RiskScoreCol in f.rows[j];
      DrawnBase(columns, rows, draws, j);
    }
  }

  ghost predicate DrawnInRange(r: Row)
  {
    RiskScoreCol in r && r[RiskScoreCol].Num? && 1.0 <= r[RiskScoreCol].n <= 9.0
  }

  /** For a drawn base, a row with a
      large amount, a negative balance, matching amounts and a high-risk country ends at
      base + 9 exactly when 1 was drawn, and at base + 7 exactly when 3 was drawn. */
  lemma DrawnThreeSignals(columns: set<string>, rows: seq<Row>, draws: seq<int>, i: nat)
    requires WellFormed(Frame(columns, rows)) && |draws| == |rows| && i < |rows|
    requires RiskScoreCol !in columns
    requires !RiskSpec(columns, rows, draws).raised
    requires 1 <= draws[i] <= 9
    requires Signal(rows[i], 0) && Signal(rows[i], 1) && !Signal(rows[i], 2) && Signal(rows[i], 3)
    ensures var out := RiskSpec(columns, rows, draws).rows[i];
            && RiskScoreCol in out && AdjustedCol in out
            && out[RiskScoreCol] == Num(draws[i] as real)
            && (out[AdjustedCol] == Num(draws[i] as real + 9.0) <==> draws[i] == 1)
            && (out[AdjustedCol] == Num(draws[i] as real + 7.0) <==> draws[i] == 3)
  {
    var f := WithBase(columns, rows, draws);
    RiskScoreRowwise(columns, rows, draws, i);
    assert RiskScoreCol in f.rows[i];
    DrawnBase(columns, rows, draws, i);
    ThreeSignalsClamped(draws[i] as real);
  }
}
