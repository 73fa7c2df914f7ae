/** The batch rule engine, `validate(data)`: rules name their operator in camelCase
    (`greaterThan`, ...), rules with a missing part are skipped, a text column is
    coerced to numbers in place before it is compared, and the flags are merged onto
    the separately loaded transactions table. Nothing is caught: any exception ends
    the run. */
module LegacyValidator {
  import opened Table
  import opened Dedup
  import opened Aggregate

  /** The six camelCase operators the dispatch recognises. */
  function CamelOperator(s: string): (r: Option<Cmp>)
    ensures r.Some? ==> CamelName(r.value) == s
  {
    if s == "greaterThan" then Some(Gt)
    else if s == "lessThan" then Some(Lt)
    else if s == "greaterThanOrEqual" then Some(Ge)
    else if s == "lessThanOrEqual" then Some(Le)
    else if s == "equal" then Some(Eq)
    else if s == "notEqual" then Some(Ne)
    else None
  }

  function CamelName(c: Cmp): string
  {
    match c
    case Gt => "greaterThan"
    case Lt => "lessThan"
    case Ge => "greaterThanOrEqual"
    case Le => "lessThanOrEqual"
    case Eq => "equal"
    case Ne => "notEqual"
  }

  /** Each comparison is dispatched from its own camelCase name and from no other
      string. */
  lemma CamelRoundTrip(c: Cmp, s: string)
    ensures CamelOperator(CamelName(c)) == Some(c)
    ensures CamelOperator(s) == Some(c) <==> s == CamelName(c)
  {
  }

  /** `rule.get(...)` of a name or an action: the text, or `None` when absent. */
  function TagValue(o: Option<string>): (v: Value)
    ensures v.Null? <==> o.None?
  {
    if o.Some? then Str(o.value) else Null
  }

  /** `not operator or threshold is None`: a missing or empty operator, or a missing or
      null value. */
  predicate Incomplete(rule: RawRule)
  {
    rule.operator.None? || rule.operator.value == "" || rule.value.None? || rule.value.value == Scalar(Null)
  }

  /** Whether the rule converts its column to numbers first: the column holds text and
      the operator is neither `equal` nor `notEqual` (an unknown one included). */
  predicate Coerces(rule: RawRule, cells: seq<Value>)
    requires rule.operator.Some?
  {
    Textual(cells) && rule.operator.value != "equal" && rule.operator.value != "notEqual"
  }

  /** `data[field] = pd.to_numeric(data[field], errors="coerce")` on the rows. */
  function CoercedRows(rows: seq<Row>, field: string): (r: seq<Row>)
    requires forall i :: 0 <= i < |rows| ==> field in rows[i]
    ensures |r| == |rows|
    ensures forall i :: 0 <= i < |rows| ==> r[i].Keys == rows[i].Keys
  {
    seq(|rows|, i requires 0 <= i < |rows| => rows[i][field := ToNumeric(rows[i][field])])
  }

  /** After coercion the column holds no text: each string became its number, or a
      missing value when it does not parse; numbers and missing values stayed, and
      every other column is untouched. */
  lemma CoercionEffect(rows: seq<Row>, field: string)
    requires forall i :: 0 <= i < |rows| ==> field in rows[i]
    ensures !Textual(Column(CoercedRows(rows, field), field))
    ensures forall i :: 0 <= i < |rows| ==>
              var before, after := rows[i][field], CoercedRows(rows, field)[i][field];
              && (before.Str? && ParseNumber(before.s).Some? ==> after == Num(ParseNumber(before.s).value))
              && (before.Str? && ParseNumber(before.s).None? ==> after == Null)
              && (!before.Str? ==> after == before)
    ensures forall i, col :: 0 <= i < |rows| && col in rows[i] && col != field ==> CoercedRows(rows, field)[i][col] == rows[i][col]
  {
  }

  /** Coercing twice is coercing once. */
  lemma CoercionIdempotent(rows: seq<Row>, field: string)
    requires forall i :: 0 <= i < |rows| ==> field in rows[i]
    ensures CoercedRows(CoercedRows(rows, field), field) == CoercedRows(rows, field)
  {
    var once := CoercedRows(rows, field);
    forall i | 0 <= i < |rows| ensures CoercedRows(once, field)[i] == once[i] {
      assert once[i][field := once[i][field]] == once[i];
    }
  }

  /** A value that did not parse never satisfies an ordered comparison or `equal`, and
      always satisfies `notEqual`. */
  lemma UnparseableNeverMatches(op: Cmp, s: string, x: Value)
    requires ParseNumber(s).None?
    ensures Compare(op, ToNumeric(Str(s)), x) == Ok(op == Ne)
  {
  }

  /** What applying one rule does: the rows afterwards (the coercion is kept even when
      the rule goes on to be skipped or to raise) and either an exception, nothing to
      record, or the rule's flagged frame. */
  datatype Effect = Effect(rows: seq<Row>, result: Outcome<Option<seq<Row>>>)

  /** One pass of the loop body. */
  function ApplyRule(columns: set<string>, rows: seq<Row>, rule: RawRule): (e: Effect)
    requires WellFormed(Frame(columns, rows))
    ensures WellFormed(Frame(columns, e.rows)) && |e.rows| == |rows|
    ensures e.result.Ok? && e.result.value.Some? ==> |e.result.value.value| > 0
    ensures Incomplete(rule) ==> e == Effect(rows, Ok(None))
    ensures !Incomplete(rule) && (rule.field.None? || rule.field.value !in columns) ==> e == Effect(rows, Raised)
  {
    if Incomplete(rule) then Effect(rows, Ok(None))
    else if rule.field.None? || rule.field.value !in columns then Effect(rows, Raised)
    else
      var field := rule.field.value;
      var current := if Coerces(rule, Column(rows, field)) then CoercedRows(rows, field) else rows;
      assert WellFormed(Frame(columns, current));
      var cells := Column(current, field);
      var mask: Outcome<Option<seq<bool>>> :=
        match rule.value.value
        case Items(vs) => Ok(Some(IsIn(cells, vs)))
        case Scalar(x) =>
          match CamelOperator(rule.operator.value)
          case None => Ok(None)
          case Some(c) => (match CompareColumn(c, cells, x) case Raised => Raised case Ok(m) => Ok(Some(m)));
      match mask
      case Raised => Effect(current, Raised)
      case Ok(None) => Effect(current, Ok(None))
      case Ok(Some(m)) =>
        Effect(current, Ok(if Count(m) > 0 then Some(TagSelected(current, m, TagValue(rule.name), TagValue(rule.action))) else None))
  }

  /** A complete rule on an existing text column is coerced in place whatever follows
      (a list threshold, an unknown operator, a comparison that raises); any other
      rule leaves the rows as they are. */
  lemma CoercionHappensFirst(columns: set<string>, rows: seq<Row>, rule: RawRule)
    requires WellFormed(Frame(columns, rows))
    requires !Incomplete(rule) && rule.field.Some? && rule.field.value in columns
    ensures ApplyRule(columns, rows, rule).rows ==
              if Coerces(rule, Column(rows, rule.field.value)) then CoercedRows(rows, rule.field.value) else rows
  {
  }

  /** The coerced column persists: a later rule on the same column finds no text there
      and leaves the rows as they are. */
  lemma CoercionPersists(columns: set<string>, rows: seq<Row>, rule: RawRule)
    requires WellFormed(Frame(columns, rows))
    requires !Incomplete(rule) && rule.field.Some? && rule.field.value in columns
    ensures WellFormed(Frame(columns, CoercedRows(rows, rule.field.value)))
    ensures ApplyRule(columns, CoercedRows(rows, rule.field.value), rule).rows == CoercedRows(rows, rule.field.value)
  {
    CoercionEffect(rows, rule.field.value);
  }

  /** A list threshold means membership whatever the operator, even one the dispatch
      does not know: the rows whose (possibly coerced) cell is in the list are
      recorded when there are any. */
  lemma ListMeansMembership(columns: set<string>, rows: seq<Row>, rule: RawRule, vs: seq<Value>)
    requires WellFormed(Frame(columns, rows))
    requires !Incomplete(rule) && rule.field.Some? && rule.field.value in columns
    requires rule.value == Some(Items(vs))
    ensures var e := ApplyRule(columns, rows, rule);
            var m := IsIn(Column(e.rows, rule.field.value), vs);
            e.result == Ok(if Count(m) > 0 then Some(TagSelected(e.rows, m, TagValue(rule.name), TagValue(rule.action))) else None)
  {
  }

  /** With a scalar threshold the six names dispatch to their comparison; any other name
      is skipped, and nothing is recorded for it. */
  lemma ScalarDispatch(columns: set<string>, rows: seq<Row>, rule: RawRule, x: Value)
    requires WellFormed(Frame(columns, rows))
    requires !Incomplete(rule) && rule.field.Some? && rule.field.value in columns
    requires rule.value == Some(Scalar(x))
    ensures var e := ApplyRule(columns, rows, rule);
            var cells := Column(e.rows, rule.field.value);
            && (CamelOperator(rule.operator.value).None? ==> e.result == Ok(None))
            && (CamelOperator(rule.operator.value).Some? ==>
                  var c := CamelOperator(rule.operator.value).value;
                  && (e.result.Raised? <==> CompareColumn(c, cells, x).Raised?)
                  && (e.result.Ok? ==>
                        var m := CompareColumn(c, cells, x).value;
                        e.result.value == if Count(m) > 0 then Some(TagSelected(e.rows, m, TagValue(rule.name), TagValue(rule.action))) else None))
  {
  }

  /** Where the loop over the rules stands: the data's rows, the frames recorded, and
      whether an exception ended it. */
  datatype Run = Run(rows: seq<Row>, frames: seq<seq<Row>>, raised: bool)

  /** The loop over the rules, as a function of the rules seen so far. */
  function RunRules(columns: set<string>, rows: seq<Row>, rules: seq<RawRule>): (r: Run)
    requires WellFormed(Frame(columns, rows))
    ensures WellFormed(Frame(columns, r.rows)) && |r.rows| == |rows|
  {
    if rules == [] then Run(rows, [], false)
    else
      Next(columns, RunRules(columns, rows, rules[..|rules| - 1]), rules[|rules| - 1])
  }

  /** One pass of the loop: nothing more happens once an exception was raised. */
  function Next(columns: set<string>, before: Run, rule: RawRule): (r: Run)
    requires WellFormed(Frame(columns, before.rows))
    ensures WellFormed(Frame(columns, r.rows)) && |r.rows| == |before.rows|
  {
    if before.raised then before else Advance(before, ApplyRule(columns, before.rows, rule))
  }

  function Advance(run: Run, e: Effect): Run
  {
    match e.result
    case Raised => Run(e.rows, run.frames, true)
    case Ok(None) => Run(e.rows, run.frames, false)
    case Ok(Some(t)) => Run(e.rows, run.frames + [t], false)
  }

  /** What the run leaves behind: nothing written, the flagged table written to the
      results file, or an exception. */
  datatype Written = NotWritten | Wrote(frame: Frame) | Crashed

  /** The file `validate` writes after the loop: none when no rule recorded a match;
      a crash when the recorded subsets, which carry the data's `columns`, have no
      Customer_ID to project (`flagged_df[["Customer_ID", "Reason", "Action"]]`), or
      when the merge raises because the transactions table has no Customer_ID column
      or already has a Reason or Action column, or because one key column holds text
      and the other does not (pandas refuses to merge an object key with a numeric
      one, which happens once a rule has coerced the data's Customer_ID); otherwise
      the transactions table with each customer's formatted reasons and actions,
      deduplicated. */
  ghost predicate Writes(columns: set<string>, base: Frame, run: Run, res: Written)
  {
    if run.raised then res == Crashed
    else if run.frames == [] then res == NotWritten
    else if CustomerId !in columns then res == Crashed
    else if !CanAggregate(base) then res == Crashed
    else if KeyKindsDiffer(base.rows, run.frames) then res == Crashed
    else res.Wrote? && exists reasons, actions :: Explains(base, FlagsOf(run.frames), reasons, actions, res.frame)
  }

  /** The Customer_ID cells of some rows, as the merge reads its key column. */
  function KeyColumn(rows: seq<Row>): (keys: seq<Value>)
    ensures |keys| == |rows| && forall i :: 0 <= i < |rows| ==> keys[i] == Get(rows[i], CustomerId)
  {
    seq(|rows|, i requires 0 <= i < |rows| => Get(rows[i], CustomerId))
  }

  /** The two key columns of the merge differ in kind: one holds text, the other none. */
  predicate KeyKindsDiffer(base: seq<Row>, frames: seq<seq<Row>>)
  {
    Textual(KeyColumn(base)) != Textual(KeyColumn(Concat(frames)))
  }

  /** `validate(data)`, with the rules document and the module-level transactions table
      (`regulatory_df`) as parameters. The data's rows are updated in place by the
      coercions; the function itself returns nothing, so `res` is what it writes. */
  method Validate(data: DataFrame, regulatory: Frame, doc: Option<seq<RawRule>>) returns (res: Written)
    requires data.Valid() && WellFormed(regulatory)
    modifies data.rows
    ensures data.Valid()
    ensures var run := RunRules(data.columns, old(data.rows[..]), RulesOf(doc));
            data.rows[..] == run.rows && Writes(data.columns, regulatory, run, res)
  {
    var rules := RulesOf(doc);
    ghost var initial := data.rows[..];
    assert WellFormed(Frame(data.columns, initial));
    var flagged: seq<seq<Row>> := [];
    var i := 0;
    while i < |rules|
      invariant 0 <= i <= |rules|
      invariant data.Valid()
      invariant RunRules(data.columns, initial, rules[..i]) == Run(data.rows[..], flagged, false)
    {
      var rule := rules[i];
      ghost var e := ApplyRule(data.columns, data.rows[..], rule);
      assert RunRules(data.columns, initial, rules[..i + 1]) == Advance(Run(data.rows[..], flagged, false), e) by {
        assert rules[..i + 1] == rules[..i] + [rule];
        RunSnoc(data.columns, initial, rules[..i], rule);
      }
      var outcome := ApplyRuleInPlace(data, rule);
      if outcome.Raised? {
        RunStops(data.columns, initial, rules, i + 1);
        return Crashed;
      }
      if outcome.value.Some? {
        flagged := flagged + [outcome.value.value];
      }
      i := i + 1;
    }
    assert rules[..i] == rules;
    if flagged == [] {
      return NotWritten;
    }
    if CustomerId !in data.columns || KeyKindsDiffer(regulatory.rows, flagged) {
      return Crashed;
    }
    var merged := AggregateFlags(regulatory, FlagsOf(flagged));
    if merged.Raised? {
      return Crashed;
    }
    return Wrote(merged.value);
  }

  /** One more turn of the loop. */
  lemma RunSnoc(columns: set<string>, rows: seq<Row>, a: seq<RawRule>, rule: RawRule)
    requires WellFormed(Frame(columns, rows))
    ensures RunRules(columns, rows, a + [rule]) == Next(columns, RunRules(columns, rows, a), rule)
  {
    assert (a + [rule])[..|a + [rule]| - 1] == a;
  }

  /** `flagged_transactions` only grows: the subsets recorded after the first `k`
      rules are a prefix of those recorded after all of them, and each further rule
      records at most one more. */
  lemma {:induction false} FramesGrow(columns: set<string>, rows: seq<Row>, rules: seq<RawRule>, k: nat)
    requires WellFormed(Frame(columns, rows)) && k <= |rules|
    ensures var a := RunRules(columns, rows, rules[..k]).frames;
            var b := RunRules(columns, rows, rules).frames;
            |a| <= |b| <= |a| + (|rules| - k) && b[..|a|] == a
  {
    if k == |rules| {
      assert rules[..k] == rules;
    } else {
      var n := |rules| - 1;
      assert rules[..n][..k] == rules[..k];
      FramesGrow(columns, rows, rules[..n], k);
      var before := RunRules(columns, rows, rules[..n]);
      var after := RunRules(columns, rows, rules);
      assert after == Next(columns, before, rules[n]);
      assert |before.frames| <= |after.frames| <= |before.frames| + 1;
      assert after.frames[..|before.frames|] == before.frames;
    }
  }

  /** `rules.get("rules", [])`: an absent key means no rules. */
  function RulesOf(doc: Option<seq<RawRule>>): seq<RawRule>
  {
    if doc.Some? then doc.value else []
  }

  /** The loop body on the data frame itself. */
  method ApplyRuleInPlace(data: DataFrame, rule: RawRule) returns (result: Outcome<Option<seq<Row>>>)
    requires data.Valid()
    modifies data.rows
    ensures data.Valid()
    ensures old(WellFormed(Frame(data.columns, data.rows[..])))
    ensures var e := ApplyRule(data.columns, old(data.rows[..]), rule);
            data.rows[..] == e.rows && result == e.result
  {
    assert WellFormed(Frame(data.columns, data.rows[..]));
    if rule.operator.None? || rule.operator.value == "" || rule.value.None? || rule.value.value == Scalar(Null) {
      return Ok(None);
    }
    if rule.field.None? || rule.field.value !in data.columns {
      return Raised;
    }
    var field, operator, threshold := rule.field.value, rule.operator.value, rule.value.value;
    if Textual(Column(data.rows[..], field)) && operator != "equal" && operator != "notEqual" {
      CoerceColumn(data, field);
    }
    assert WellFormed(Frame(data.columns, data.rows[..]));
    var cells := Column(data.rows[..], field);
    var mask: seq<bool>;
    if threshold.Items? {
      mask := IsIn(cells, threshold.vs);
    } else {
      var c := CamelOperator(operator);
      if c.None? {
        return Ok(None);
      }
      var compared := CompareColumn(c.value, cells, threshold.v);
      if compared.Raised? {
        return Raised;
      }
      mask := compared.value;
    }
    if Count(mask) == 0 {
      return Ok(None);
    }
    return Ok(Some(TagSelected(data.rows[..], mask, TagValue(rule.name), TagValue(rule.action))));
  }

  /** The in-place coercion of one column, row by row. */
  method CoerceColumn(data: DataFrame, field: string)
    requires data.Valid() && field in data.columns
    modifies data.rows
    ensures data.Valid()
    ensures old(forall i :: 0 <= i < data.rows.Length ==> field in data.rows[i])
    ensures data.rows[..] == CoercedRows(old(data.rows[..]), field)
  {
    ghost var before := data.rows[..];
    ghost var after := CoercedRows(before, field);
    for i := 0 to data.rows.Length
      invariant forall j :: 0 <= j < i ==> data.rows[j] == after[j]
      invariant forall j :: i <= j < data.rows.Length ==> data.rows[j] == before[j]
    {
      data.rows[i] := data.rows[i][field := ToNumeric(data.rows[i][field])];
    }
    assert data.rows[..] == after;
  }

  /** Once an exception has ended the loop, later rules change nothing. */
  lemma {:induction false} RunStops(columns: set<string>, rows: seq<Row>, rules: seq<RawRule>, i: nat)
    requires WellFormed(Frame(columns, rows)) && i <= |rules|
    requires RunRules(columns, rows, rules[..i]).raised
    ensures RunRules(columns, rows, rules) == RunRules(columns, rows, rules[..i])
    decreases |rules| - i
  {
    if i < |rules| {
      assert rules[..i + 1][..i] == rules[..i];
      RunStops(columns, rows, rules, i + 1);
    } else {
      assert rules[..i] == rules;
    }
  }

  lemma AppendLast(a: seq<RawRule>, c: seq<RawRule>)
    requires c != []
    ensures a + c == (a + c[..|c| - 1]) + [c[|c| - 1]]
  {
    assert c == c[..|c| - 1] + [c[|c| - 1]];
  }

  /** Rules evaluated after two prefixes that leave the loop in the same state behave
      the same. */
  lemma {:induction false} RunSuffix(columns: set<string>, rows: seq<Row>, a: seq<RawRule>, b: seq<RawRule>, c: seq<RawRule>)
    requires WellFormed(Frame(columns, rows))
    requires RunRules(columns, rows, a) == RunRules(columns, rows, b)
    ensures RunRules(columns, rows, a + c) == RunRules(columns, rows, b + c)
  {
    if c == [] {
      assert a + c == a && b + c == b;
    } else {
      var n := |c| - 1;
      var ra := RunRules(columns, rows, a + c[..n]);
      var rb := RunRules(columns, rows, b + c[..n]);
      assert ra == rb by { RunSuffix(columns, rows, a, b, c[..n]); }
      assert RunRules(columns, rows, a + c) == Next(columns, ra, c[n]) by {
        AppendLast(a, c);
        RunSnoc(columns, rows, a + c[..n], c[n]);
      }
      assert RunRules(columns, rows, b + c) == Next(columns, rb, c[n]) by {
        AppendLast(b, c);
        RunSnoc(columns, rows, b + c[..n], c[n]);
      }
    }
  }

  /** A rule with a missing or empty operator or a missing value is skipped: removing it
      changes nothing, neither the data nor what later rules record. */
  lemma IncompleteRuleSkipped(columns: set<string>, rows: seq<Row>, a: seq<RawRule>, rule: RawRule, c: seq<RawRule>)
    requires WellFormed(Frame(columns, rows))
    requires Incomplete(rule)
    ensures RunRules(columns, rows, a + [rule] + c) == RunRules(columns, rows, a + c)
  {
    assert (a + [rule])[..|a|] == a;
    RunSuffix(columns, rows, a + [rule], a, c);
  }

  /** When every rule is skipped, the data is left as it is and no file is written. */
  lemma AllSkippedNothingWritten(columns: set<string>, rows: seq<Row>, rules: seq<RawRule>, base: Frame, res: Written)
    requires WellFormed(Frame(columns, rows))
    requires forall i :: 0 <= i < |rules| ==> Incomplete(rules[i])
    requires Writes(columns, base, RunRules(columns, rows, rules), res)
    ensures res == NotWritten
    ensures RunRules(columns, rows, rules).rows == rows
  {
    AllSkipped(columns, rows, rules);
  }

  lemma {:induction false} AllSkipped(columns: set<string>, rows: seq<Row>, rules: seq<RawRule>)
    requires WellFormed(Frame(columns, rows))
    requires forall i :: 0 <= i < |rules| ==> Incomplete(rules[i])
    ensures RunRules(columns, rows, rules) == Run(rows, [], false)
  {
    if rules != [] {
      AllSkipped(columns, rows, rules[..|rules| - 1]);
    }
  }

  /** Without a recorded match (every rule skipped, unsupported or matching no row) no
      file is written, even when some rules coerced the data. */
  lemma NothingRecordedNothingWritten(columns: set<string>, base: Frame, run: Run, res: Written)
    requires !run.raised && run.frames == []
    requires Writes(columns, base, run, res)
    ensures res == NotWritten
  {
  }

  /** Once a rule recorded a match, data without a Customer_ID column makes the
      projection of the recorded subsets raise, whatever the transactions table is. */
  lemma MissingCustomerIdCrashes(columns: set<string>, rows: seq<Row>, rules: seq<RawRule>, base: Frame, res: Written)
    requires WellFormed(Frame(columns, rows)) && CustomerId !in columns
    requires RunRules(columns, rows, rules).frames != []
    requires Writes(columns, base, RunRules(columns, rows, rules), res)
    ensures res == Crashed
  {
  }

  /** When a rule coerced the data's Customer_ID to numbers, every recorded key is a
      number or missing; against a transactions table with text keys (such as "C001")
      the merge then raises instead of writing a table with empty tags. */
  lemma TextKeysAgainstNumericKeysCrash(columns: set<string>, base: Frame, run: Run, res: Written)
    requires !run.raised && run.frames != [] && CustomerId in columns && CanAggregate(base)
    requires exists i :: 0 <= i < |base.rows| && Get(base.rows[i], CustomerId).Str?
    requires forall k :: 0 <= k < |Concat(run.frames)| ==> !Get(Concat(run.frames)[k], CustomerId).Str?
    requires Writes(columns, base, run, res)
    ensures res == Crashed
  {
    var i :| 0 <= i < |base.rows| && Get(base.rows[i], CustomerId).Str?;
    assert KeyColumn(base.rows)[i].Str?;
  }

  /** The written table has one row per distinct row of the transactions table, with
      that row's cells unchanged plus Reason and Action, whatever the data's rows were
      coerced to. */
  lemma WrittenTableRows(columns: set<string>, base: Frame, run: Run, out: Frame)
    requires WellFormed(base)
    requires Writes(columns, base, run, Wrote(out))
    ensures CustomerId in columns && CanAggregate(base) && !KeyKindsDiffer(base.rows, run.frames)
    ensures |out.rows| == |DropDuplicates(base.rows)|
    ensures forall i :: 0 <= i < |out.rows| ==> out.rows[i] - {ReasonCol, ActionCol} == DropDuplicates(base.rows)[i]
    ensures out.columns == base.columns + {ReasonCol, ActionCol} && WellFormed(out)
    ensures Distinct(base.rows) ==> |out.rows| == |base.rows|
  {
    var reasons, actions :| Explains(base, FlagsOf(run.frames), reasons, actions, out);
    FlaggedRowsMatchBase(base, FlagsOf(run.frames), reasons, actions, out);
  }
}
