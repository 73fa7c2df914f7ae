/** Tabular data as the engine sees it: cells, rows, frames, cell comparisons with
    pandas' semantics, and the number parsing and decimal rendering that the
    coercion and message formatting steps rely on. */
module Table {

  datatype Option<T> = None | Some(value: T)

  /** A cell of a data frame. `Null` stands for a missing value (NaN / None). */
  datatype Value = Num(n: real) | Str(s: string) | Null

  /** A row maps column names to cells. */
  type Row = map<string, Value>

  /** An immutable data frame: its column set and its rows, in order. */
  datatype Frame = Frame(columns: set<string>, rows: seq<Row>)

  /** Every row of a data frame carries exactly the frame's columns. */
  ghost predicate WellFormed(f: Frame)
  {
    forall i :: 0 <= i < |f.rows| ==> f.rows[i].Keys == f.columns
  }

  /** A data frame that operations update in place: columns can be added and cells
      overwritten, while the row sequence keeps its identity and length. */
  class DataFrame {
    var columns: set<string>
    const rows: array<Row>

    ghost predicate Valid()
      reads this, rows
    {
      forall i :: 0 <= i < rows.Length ==> rows[i].Keys == columns
    }

    constructor (cols: set<string>, contents: seq<Row>)
      requires forall i :: 0 <= i < |contents| ==> contents[i].Keys == cols
      ensures Valid() && fresh(rows)
      ensures columns == cols && rows[..] == contents
    {
      columns := cols;
      rows := new Row[|contents|](i requires 0 <= i < |contents| => contents[i]);
    }
  }

  /** The outcome of a pandas operation that may raise. */
  datatype Outcome<T> = Ok(value: T) | Raised

  /** The six element-wise comparisons pandas offers on a column. */
  datatype Cmp = Gt | Lt | Ge | Le | Eq | Ne

  /** Python's ordering on strings: lexicographic on code points. */
  predicate StrLess(a: string, b: string)
  {
    if |a| == 0 then |b| > 0
    else if |b| == 0 then false
    else if a[0] != b[0] then a[0] < b[0]
    else StrLess(a[1..], b[1..])
  }

  /** One cell compared with one operand, as pandas compares a column element-wise.
      Equality never holds for a missing cell, so `!=` always holds for it (NaN != x).
      An ordered comparison involving a missing cell or operand is false; one that
      mixes a string with a number raises, as Python's `<` between `str` and `float`
      does. */
  function Compare(op: Cmp, cell: Value, operand: Value): (r: Outcome<bool>)
    ensures op == Eq || op == Ne ==> r.Ok?
    ensures op == Eq && r.Ok? && r.value ==> cell == operand && cell != Null
    ensures op == Ne ==> r == Ok(!(cell == operand && cell != Null))
    ensures cell.Num? == operand.Num? ==> r.Ok?
    ensures cell == Null || operand == Null ==> r == Ok(op == Ne)
    ensures r.Raised? <==> Ordered(op) && ((cell.Num? && operand.Str?) || (cell.Str? && operand.Num?))
  {
    match op
    case Eq => Ok(cell == operand && cell != Null)
    case Ne => Ok(!(cell == operand && cell != Null))
    case _ =>
      match (cell, operand)
      case (Num(x), Num(y)) =>
        Ok(match op
           case Gt => x > y
           case Lt => x < y
           case Ge => x >= y
           case _ => x <= y)
      case (Str(x), Str(y)) =>
        Ok(match op
           case Gt => StrLess(y, x)
           case Lt => StrLess(x, y)
           case Ge => !StrLess(x, y)
           case _ => !StrLess(y, x))
      case (Null, _) => Ok(false)
      case (_, Null) => Ok(false)
      case _ => Raised
  }

  predicate Ordered(op: Cmp)
  {
    op != Eq && op != Ne
  }

  /** A column is stored with a numeric dtype when it holds no string; pandas then
      refuses an ordered comparison with a string operand outright. */
  predicate Textual(cells: seq<Value>)
  {
    exists i :: 0 <= i < |cells| && cells[i].Str?
  }

  /** Each cell compared with the operand at the same position; the comparison raises
      when any one of them does. */
  function CompareEach(op: Cmp, cells: seq<Value>, operands: seq<Value>): (r: Outcome<seq<bool>>)
    requires |operands| == |cells|
    ensures r.Ok? ==> |r.value| == |cells|
    ensures r.Ok? ==> forall i :: 0 <= i < |cells| ==> Compare(op, cells[i], operands[i]) == Ok(r.value[i])
    ensures r.Raised? <==> exists i :: 0 <= i < |cells| && Compare(op, cells[i], operands[i]).Raised?
  {
    if cells == [] then Ok([])
    else
      var n := |cells| - 1;
      match (CompareEach(op, cells[..n], operands[..n]), Compare(op, cells[n], operands[n]))
      case (Ok(m), Ok(b)) => Ok(m + [b])
      case _ => Raised
  }

  /** A column compared with one scalar (`df[field] > threshold`). */
  function CompareColumn(op: Cmp, cells: seq<Value>, operand: Value): (r: Outcome<seq<bool>>)
    ensures r.Ok? ==> |r.value| == |cells|
    ensures r.Ok? ==> forall i :: 0 <= i < |cells| ==> Compare(op, cells[i], operand) == Ok(r.value[i])
    ensures r.Raised? <==> Ordered(op) && ((operand.Str? && (!Textual(cells) || exists i :: 0 <= i < |cells| && cells[i].Num?))
                                           || (operand.Num? && Textual(cells)))
  {
    if Ordered(op) && operand.Str? && !Textual(cells) then Raised
    else
      var operands := Constant(operand, |cells|);
      assert forall i :: 0 <= i < |cells| ==> operands[i] == operand;
      CompareEach(op, cells, operands)
  }

  function Constant(x: Value, k: nat): (r: seq<Value>)
    ensures |r| == k && forall i :: 0 <= i < k ==> r[i] == x
  {
    seq(k, i => x)
  }

  /** `Series.isin(items)`: hash-based membership, under which a missing cell matches
      a missing item. */
  function IsIn(cells: seq<Value>, items: seq<Value>): (r: seq<bool>)
    ensures |r| == |cells| && forall i :: 0 <= i < |cells| ==> (r[i] <==> cells[i] in items)
  {
    seq(|cells|, i requires 0 <= i < |cells| => cells[i] in items)
  }

  /** `~mask`. */
  function Negate(mask: seq<bool>): (r: seq<bool>)
    ensures |r| == |mask| && forall i :: 0 <= i < |mask| ==> r[i] == !mask[i]
  {
    seq(|mask|, i requires 0 <= i < |mask| => !mask[i])
  }

  /** `df[field]`: the column's cells in row order. */
  function Column(rows: seq<Row>, field: string): (r: seq<Value>)
    requires forall i :: 0 <= i < |rows| ==> field in rows[i]
    ensures |r| == |rows| && forall i :: 0 <= i < |rows| ==> r[i] == rows[i][field]
  {
    seq(|rows|, i requires 0 <= i < |rows| => rows[i][field])
  }

  /** The rows whose mask entry is true, in table order (`df[mask]`). */
  function Select(rows: seq<Row>, mask: seq<bool>): (r: seq<Row>)
    requires |mask| == |rows|
    ensures |r| <= |rows|
    ensures forall x :: x in r ==> x in rows
  {
    if rows == [] then []
    else (if mask[0] then [rows[0]] else []) + Select(rows[1..], mask[1..])
  }

  /** The number of true entries of a mask. */
  function Count(mask: seq<bool>): nat
  {
    if mask == [] then 0 else (if mask[0] then 1 else 0) + Count(mask[1..])
  }

  /** `df[mask]` keeps exactly the rows whose mask entry is true, one per true entry. */
  lemma {:induction false} SelectExact(rows: seq<Row>, mask: seq<bool>)
    requires |mask| == |rows|
    ensures |Select(rows, mask)| == Count(mask)
    ensures forall x :: x in Select(rows, mask) <==> exists i :: 0 <= i < |rows| && mask[i] && rows[i] == x
  {
    if rows != [] {
      SelectExact(rows[1..], mask[1..]);
      forall x ensures x in Select(rows, mask) <==> exists i :: 0 <= i < |rows| && mask[i] && rows[i] == x {
        if x in Select(rows[1..], mask[1..]) {
          var j :| 0 <= j < |rows[1..]| && mask[1..][j] && rows[1..][j] == x;
          assert mask[j + 1] && rows[j + 1] == x;
        }
        if i :| 0 <= i < |rows| && mask[i] && rows[i] == x {
          if i > 0 {
            assert mask[1..][i - 1] && rows[1..][i - 1] == x;
          }
        }
      }
    }
  }

  /** The true positions of a mask, in increasing order. */
  function TruePositions(mask: seq<bool>): (idx: seq<nat>)
    ensures |idx| == Count(mask)
    ensures forall k :: 0 <= k < |idx| ==> idx[k] < |mask| && mask[idx[k]]
  {
    if mask == [] then []
    else
      var rest := TruePositions(mask[1..]);
      var shifted := Shift(rest);
      assert forall k :: 0 <= k < |rest| ==> mask[shifted[k]] == mask[1..][rest[k]];
      (if mask[0] then [0] else []) + shifted
  }

  function Shift(s: seq<nat>): (r: seq<nat>)
    ensures |r| == |s| && forall k :: 0 <= k < |s| ==> r[k] == s[k] + 1
  {
    seq(|s|, k requires 0 <= k < |s| => s[k] + 1)
  }

  ghost predicate StrictlyIncreasing(s: seq<nat>)
  {
    forall k, l :: 0 <= k < l < |s| ==> s[k] < s[l]
  }

  /** The true positions are listed in increasing order. */
  lemma {:induction false} TruePositionsIncreasing(mask: seq<bool>)
    ensures StrictlyIncreasing(TruePositions(mask))
  {
    if mask != [] {
      TruePositionsIncreasing(mask[1..]);
      var shifted := Shift(TruePositions(mask[1..]));
      ShiftIncreasing(TruePositions(mask[1..]));
      if mask[0] {
        assert TruePositions(mask) == [0] + shifted;
        PrependSmaller(0, shifted);
      } else {
        assert TruePositions(mask) == shifted;
      }
    }
  }

  lemma ShiftIncreasing(s: seq<nat>)
    requires StrictlyIncreasing(s)
    ensures StrictlyIncreasing(Shift(s))
    ensures forall k :: 0 <= k < |Shift(s)| ==> Shift(s)[k] >= 1
  {
  }

  lemma PrependSmaller(x: nat, s: seq<nat>)
    requires StrictlyIncreasing(s) && forall k :: 0 <= k < |s| ==> x < s[k]
    ensures StrictlyIncreasing([x] + s)
  {
    var t := [x] + s;
    forall k, l | 0 <= k < l < |t| ensures t[k] < t[l] {
      assert t[l] == s[l - 1];
      if k > 0 { assert t[k] == s[k - 1]; }
    }
  }

  /** Every true position is listed. */
  lemma {:induction false} TruePositionsCover(mask: seq<bool>)
    ensures forall i :: 0 <= i < |mask| && mask[i] ==> i in TruePositions(mask)
  {
    forall i | 0 <= i < |mask| && mask[i] ensures i in TruePositions(mask) {
      var k := RankOf(mask, i);
    }
  }

  /** Where a true position i stands among the true positions. */
  ghost function RankOf(mask: seq<bool>, i: nat): (k: nat)
    requires i < |mask| && mask[i]
    ensures k < |TruePositions(mask)| && TruePositions(mask)[k] == i
  {
    if i == 0 then
      TruePositionsHead(mask);
      0
    else
      var h: nat := if mask[0] then 1 else 0;
      var k := RankOf(mask[1..], i - 1) + h;
      TruePositionsAfterHead(mask, k);
      k
  }

  /** A true first entry is the first true position. */
  lemma TruePositionsHead(mask: seq<bool>)
    requires mask != [] && mask[0]
    ensures |TruePositions(mask)| >= 1 && TruePositions(mask)[0] == 0
  {
    var shifted := Shift(TruePositions(mask[1..]));
    assert TruePositions(mask) == [0] + shifted;
  }

  /** `df[mask]` keeps the rows in table order: its k-th row is the row at the k-th
      true position of the mask. */
  lemma {:induction false} SelectInOrder(rows: seq<Row>, mask: seq<bool>)
    requires |mask| == |rows|
    ensures |Select(rows, mask)| == |TruePositions(mask)|
    ensures forall k :: 0 <= k < |Select(rows, mask)| ==> Select(rows, mask)[k] == rows[TruePositions(mask)[k]]
  {
    SelectExact(rows, mask);
    if rows != [] {
      SelectInOrder(rows[1..], mask[1..]);
      var h: nat := if mask[0] then 1 else 0;
      var sel, tail := Select(rows, mask), Select(rows[1..], mask[1..]);
      var idx, rest := TruePositions(mask), TruePositions(mask[1..]);
      assert sel == (if mask[0] then [rows[0]] else []) + tail;
      forall k | h <= k < |sel| ensures sel[k] == rows[idx[k]] {
        TruePositionsAfterHead(mask, k);
        SelectAfterHead(rows, mask, k);
      }
    }
  }

  /** Past the head, the selected rows are those of the tail. */
  lemma SelectAfterHead(rows: seq<Row>, mask: seq<bool>, k: nat)
    requires |mask| == |rows| && rows != []
    requires (if mask[0] then 1 else 0) <= k < |Select(rows, mask)|
    ensures Select(rows, mask)[k] == Select(rows[1..], mask[1..])[k - (if mask[0] then 1 else 0)]
  {
    var head := if mask[0] then [rows[0]] else [];
    var tail := Select(rows[1..], mask[1..]);
    assert Select(rows, mask) == head + tail;
    assert (head + tail)[k] == tail[k - |head|];
  }

  /** Past the head, the true positions are those of the tail, moved up by one. */
  lemma TruePositionsAfterHead(mask: seq<bool>, k: nat)
    requires mask != [] && (if mask[0] then 1 else 0) <= k < |TruePositions(mask)|
    ensures TruePositions(mask)[k] == TruePositions(mask[1..])[k - (if mask[0] then 1 else 0)] + 1
  {
    var head: seq<nat> := if mask[0] then [0] else [];
    var shifted := Shift(TruePositions(mask[1..]));
    assert TruePositions(mask) == head + shifted;
    assert (head + shifted)[k] == shifted[k - |head|];
  }

  // ---------------------------------------------------------------------------
  // Decimal digits: rendering naturals and integers, and parsing numbers.

  predicate IsDigit(c: char)
  {
    '0' <= c <= '9'
  }

  predicate AllDigits(s: string)
  {
    forall i :: 0 <= i < |s| ==> IsDigit(s[i])
  }

  function DigitChar(d: nat): (c: char)
    requires d < 10
    ensures IsDigit(c)
  {
    ('0' as int + d) as char
  }

  function DigitOf(c: char): (d: nat)
    requires IsDigit(c)
    ensures d < 10
  {
    c as int - '0' as int
  }

  /** The decimal spelling of a natural number, as Python's `str` gives it. */
  function NatToDecimal(n: nat): (s: string)
    ensures |s| >= 1 && AllDigits(s)
    ensures n >= 10 <==> |s| >= 2
    decreases n
  {
    if n < 10 then [DigitChar(n)] else NatToDecimal(n / 10) + [DigitChar(n % 10)]
  }

  /** Python's `str(i)` for an integer. */
  function IntToDecimal(i: int): (s: string)
    ensures |s| >= 1
    ensures (s[0] == '-') <==> i < 0
    ensures i >= 0 ==> AllDigits(s)
  {
    if i < 0 then "-" + NatToDecimal(-i) else NatToDecimal(i)
  }

  /** The value of a string of decimal digits. */
  function DigitsValue(s: string): nat
    requires AllDigits(s)
  {
    if s == [] then 0 else DigitsValue(s[..|s| - 1]) * 10 + DigitOf(s[|s| - 1])
  }

  lemma {:induction false} NatDecimalRoundTrip(n: nat)
    ensures DigitsValue(NatToDecimal(n)) == n
    decreases n
  {
    if n >= 10 {
      NatDecimalRoundTrip(n / 10);
      var s := NatToDecimal(n);
      assert s[..|s| - 1] == NatToDecimal(n / 10);
    }
  }

  function Pow10(k: nat): (p: nat)
    ensures p >= 1
  {
    if k == 0 then 1 else 10 * Pow10(k - 1)
  }

  /** The position of the first '.' in s, or |s| when there is none. */
  function DotIndex(s: string): (k: nat)
    ensures k <= |s|
    ensures forall j :: 0 <= j < k ==> s[j] != '.'
    ensures k < |s| ==> s[k] == '.'
  {
    if s == [] then 0 else if s[0] == '.' then 0 else 1 + DotIndex(s[1..])
  }

  /** The value of the digits after the point. */
  function Fraction(digits: nat, scale: nat): (r: real)
    requires scale >= 1
    ensures r >= 0.0
  {
    var q := digits as real / scale as real;
    assert q * scale as real == digits as real;
    q
  }

  /** An unsigned decimal: digits, optionally a point and more digits, with at least
      one digit in all ("12", "12.5", "12.", ".5"). */
  function ParseUnsigned(s: string): (r: Option<real>)
    ensures r.Some? ==> forall i :: 0 <= i < |s| ==> IsDigit(s[i]) || s[i] == '.'
    ensures r.Some? ==> r.value >= 0.0
  {
    var k := DotIndex(s);
    var ip := s[..k];
    var fp := if k < |s| then s[k + 1..] else [];
    if AllDigits(ip) && AllDigits(fp) && |ip| + |fp| > 0 then
      assert forall i :: 0 <= i < |s| ==> i < k || i == k || s[i] == fp[i - k - 1];
      var frac := Fraction(DigitsValue(fp), Pow10(|fp|));
      Some(DigitsValue(ip) as real + frac)
    else None
  }

  /** The numbers `pd.to_numeric` and `float()` accept in the decimal form above, with
      an optional sign; anything else is unparseable. */
  function ParseNumber(s: string): (r: Option<real>)
    ensures r.Some? ==> |s| >= 1
    ensures r.Some? ==> forall i :: 0 <= i < |s| ==> IsDigit(s[i]) || s[i] == '.' || (i == 0 && (s[i] == '-' || s[i] == '+'))
  {
    if |s| > 0 && (s[0] == '-' || s[0] == '+') then
      match ParseUnsigned(s[1..])
      case None => None
      case Some(x) =>
        assert forall i :: 1 <= i < |s| ==> s[i] == s[1..][i - 1];
        Some(if s[0] == '-' then -x else x)
    else ParseUnsigned(s)
  }

  /** Parsing what `str` renders for an integer gives that integer back. */
  lemma IntDecimalRoundTrip(i: int)
    ensures ParseNumber(IntToDecimal(i)) == Some(i as real)
  {
    var n: nat := if i < 0 then -i else i;
    var d := NatToDecimal(n);
    NatDecimalRoundTrip(n);
    assert DotIndex(d) == |d| by { DotAbsent(d); }
    assert d[..|d|] == d;
    if i < 0 {
      assert IntToDecimal(i)[1..] == d;
    } else {
      assert d[0] != '-' && d[0] != '+' by { assert IsDigit(d[0]); }
    }
  }

  lemma {:induction false} DotAbsent(s: string)
    requires AllDigits(s)
    ensures DotIndex(s) == |s|
  {
    if s != [] {
      assert AllDigits(s[1..]) by { assert forall j :: 0 <= j < |s| - 1 ==> s[1..][j] == s[j + 1]; }
      DotAbsent(s[1..]);
    }
  }

  /** `pd.to_numeric(errors="coerce")` on one cell: numbers and missing values stay,
      strings become their number or, when unparseable, a missing value. */
  function ToNumeric(v: Value): (r: Value)
    ensures !r.Str?
    ensures v.Num? || v.Null? ==> r == v
    ensures v.Str? ==> (r.Null? <==> ParseNumber(v.s).None?)
  {
    match v
    case Str(s) => (match ParseNumber(s) case Some(x) => Num(x) case None => Null)
    case _ => v
  }

  // ---------------------------------------------------------------------------
  // The rule records read from the generated rules JSON.

  /** A rule's `value`: a scalar (JSON null is `Scalar(Null)`) or a list. */
  datatype RuleValue = Scalar(v: Value) | Items(vs: seq<Value>)

  /** One rule as the JSON holds it; `None` marks a key that is absent. */
  datatype RawRule = RawRule(
    name: Option<string>,
    field: Option<string>,
    operator: Option<string>,
    value: Option<RuleValue>,
    action: Option<string>)

  /** A per-rule tag: the customer of a flagged row and the rule's reason and action
      (`Null` where the rule left them out). */
  datatype Flag = Flag(customer: Value, reason: Value, action: Value)

  const CustomerId: string := "Customer_ID"
  const ReasonCol: string := "Reason"
  const ActionCol: string := "Action"
}
