/** The rule engine behind the web service, `validate(df, rules)`: rules name their
    operator by symbol (`>`, `in`, ...), an exception while a rule is applied ends
    the run with an empty table, and the flags are merged onto `df` itself. */
module ServiceValidator {
  import opened Table
  import opened Dedup
  import opened Aggregate

  /** The eight keys of the operator map. */
  datatype Op = Compares(c: Cmp) | In | NotIn

  function OperatorSymbol(op: Op): string
  {
    match op
    case Compares(Ne) => "!="
    case Compares(Lt) => "<"
    case Compares(Gt) => ">"
    case Compares(Le) => "<="
    case Compares(Ge) => ">="
    case Compares(Eq) => "=="
    case NotIn => "not in"
    case In => "in"
  }

  /** Looking an operator up in the operator map; `None` when it is not a key. */
  function ParseOperator(s: string): (r: Option<Op>)
    ensures r.Some? ==> OperatorSymbol(r.value) == s
  {
    if s == "!=" then Some(Compares(Ne))
    else if s == "<" then Some(Compares(Lt))
    else if s == ">" then Some(Compares(Gt))
    else if s == "<=" then Some(Compares(Le))
    else if s == ">=" then Some(Compares(Ge))
    else if s == "==" then Some(Compares(Eq))
    else if s == "not in" then Some(NotIn)
    else if s == "in" then Some(In)
    else None
  }

  /** Every operator is found under its own symbol, and under no other string. */
  lemma OperatorRoundTrip(op: Op, s: string)
    ensures ParseOperator(OperatorSymbol(op)) == Some(op)
    ensures ParseOperator(s) == Some(op) <==> s == OperatorSymbol(op)
  {
  }

  /** The map has exactly eight keys. */
  lemma OperatorKeys(s: string)
    ensures ParseOperator(s).Some? <==> s in {"!=", "<", ">", "<=", ">=", "==", "not in", "in"}
  {
  }

  /** `OPERATOR_MAP[operator](df[field], value)`: the rule's predicate over one column.
      `in` / `not in` test membership when the value is a list and fall back to
      `==` / `!=` otherwise; the other operators compare a list position by position,
      which raises unless it is as long as the column. */
  function RuleMask(op: Op, cells: seq<Value>, value: RuleValue): (r: Outcome<seq<bool>>)
    ensures r.Ok? ==> |r.value| == |cells|
  {
    match op
    case In =>
      (match value
       case Items(vs) => Ok(IsIn(cells, vs))
       case Scalar(x) => CompareColumn(Eq, cells, x))
    case NotIn =>
      (match value
       case Items(vs) => Ok(Negate(IsIn(cells, vs)))
       case Scalar(x) => CompareColumn(Ne, cells, x))
    case Compares(c) =>
      (match value
       case Scalar(x) => CompareColumn(c, cells, x)
       case Items(vs) => if |vs| == |cells| then CompareEach(c, cells, vs) else Raised)
  }

  /** With a list value, `in` keeps exactly the rows whose cell is in the list and
      `not in` exactly the others; neither raises. */
  lemma MembershipOperators(cells: seq<Value>, vs: seq<Value>)
    ensures RuleMask(In, cells, Items(vs)).Ok? && RuleMask(NotIn, cells, Items(vs)).Ok?
    ensures forall i :: 0 <= i < |cells| ==> (RuleMask(In, cells, Items(vs)).value[i] <==> cells[i] in vs)
    ensures forall i :: 0 <= i < |cells| ==> (RuleMask(NotIn, cells, Items(vs)).value[i] <==> cells[i] !in vs)
  {
  }

  /** With a scalar value, `in` is `==` and `not in` is `!=`: a row matches `in`
      exactly when its cell equals the value and is not missing. */
  lemma ScalarMembershipIsEquality(cells: seq<Value>, x: Value)
    ensures RuleMask(In, cells, Scalar(x)) == RuleMask(Compares(Eq), cells, Scalar(x))
    ensures RuleMask(NotIn, cells, Scalar(x)) == RuleMask(Compares(Ne), cells, Scalar(x))
    ensures RuleMask(In, cells, Scalar(x)).Ok? && RuleMask(NotIn, cells, Scalar(x)).Ok?
    ensures forall i :: 0 <= i < |cells| ==>
              (RuleMask(In, cells, Scalar(x)).value[i] <==> cells[i] == x && x != Null)
              && RuleMask(NotIn, cells, Scalar(x)).value[i] == !RuleMask(In, cells, Scalar(x)).value[i]
  {
  }

  /** What one pass of the loop body does with a rule. */
  datatype Step =
    | Skip                   // unsupported operator: `continue`
    | Append(flagged: seq<Row>)  // the rule's tagged rows join the list
    | Abort                  // an exception inside the `try`: `return pd.DataFrame()`
    | Propagate              // an exception that escapes `validate`

  /** One rule applied to the table. A missing `field`, `operator` or `value` key
      raises before the `try`; a missing `name` raises inside it and again in the
      `except` clause that prints it, so it escapes too. Any other failure (unknown
      column, incomparable cells, missing `action`) is caught. */
  function ApplyRule(df: Frame, rule: RawRule): (s: Step)
    requires WellFormed(df)
    ensures s == Propagate <==>
              rule.field.None? || rule.operator.None? || rule.value.None?
              || (ParseOperator(rule.operator.value).Some? && rule.name.None?)
    ensures s == Skip <==>
              rule.field.Some? && rule.operator.Some? && rule.value.Some? && ParseOperator(rule.operator.value).None?
    ensures s.Append? ==> rule.name.Some? && rule.action.Some? && rule.field.value in df.columns
  {
    if rule.field.None? || rule.operator.None? || rule.value.None? then Propagate
    else
      match ParseOperator(rule.operator.value)
      case None => Skip
      case Some(op) =>
        if rule.name.None? then Propagate
        else if rule.field.value !in df.columns then Abort
        else
          match RuleMask(op, Column(df.rows, rule.field.value), rule.value.value)
          case Raised => Abort
          case Ok(mask) =>
            if rule.action.None? then Abort
            else Append(TagSelected(df.rows, mask, Str(rule.name.value), Str(rule.action.value)))
  }

  /** A supported, complete rule is caught and turned into an empty table exactly when
      its column is missing, its predicate raises or it has no action; otherwise its
      flagged frame is the tagged selection of the rows where the predicate holds. */
  lemma AbortCases(df: Frame, rule: RawRule, op: Op)
    requires WellFormed(df)
    requires rule.field.Some? && rule.operator.Some? && rule.value.Some? && rule.name.Some?
    requires ParseOperator(rule.operator.value) == Some(op)
    ensures rule.field.value !in df.columns ==> ApplyRule(df, rule) == Abort
    ensures rule.field.value in df.columns ==>
              var mask := RuleMask(op, Column(df.rows, rule.field.value), rule.value.value);
              && (mask.Raised? || rule.action.None? <==> ApplyRule(df, rule) == Abort)
              && (mask.Ok? && rule.action.Some? ==>
                    ApplyRule(df, rule) == Append(TagSelected(df.rows, mask.value, Str(rule.name.value), Str(rule.action.value))))
  {
  }

  /** Where the loop over the rules stands. */
  datatype Run = Collecting(frames: seq<seq<Row>>) | Aborted | Propagated

  /** The loop over the rules, as a function of the rules seen so far. */
  function Collect(df: Frame, rules: seq<RawRule>): Run
    requires WellFormed(df)
  {
    if rules == [] then Collecting([])
    else Advance(Collect(df, rules[..|rules| - 1]), ApplyRule(df, rules[|rules| - 1]))
  }

  /** The loop state after one more rule. */
  function Advance(run: Run, step: Step): Run
  {
    match run
    case Collecting(fs) =>
      (match step
       case Skip => Collecting(fs)
       case Append(t) => Collecting(fs + [t])
       case Abort => Aborted
       case Propagate => Propagated)
    case stopped => stopped
  }

  /** What `validate` gives back: `None`, `pd.DataFrame()`, the flagged table, or an
      exception. */
  datatype Verdict = NoTable | EmptyTable | Flagged(frame: Frame) | Failed

  /** `rules.get("rules", [])`: an absent key means no rules. */
  function RulesOf(doc: Option<seq<RawRule>>): seq<RawRule>
  {
    if doc.Some? then doc.value else []
  }

  /** The verdict of `validate` on a table and a rule list: an escaped exception, the
      empty table after a caught one, `None` when no rule was applied, and otherwise
      the base table with every customer's formatted reasons and actions, deduplicated
      (the merge itself raises when the table has no Customer_ID column or already has
      a Reason or Action column). */
  ghost predicate Reports(df: Frame, rules: seq<RawRule>, res: Verdict)
    requires WellFormed(df)
  {
    match Collect(df, rules)
    case Propagated => res == Failed
    case Aborted => res == EmptyTable
    case Collecting(fs) =>
      if fs == [] then res == NoTable
      else if !CanAggregate(df) then res == Failed
      else res.Flagged? && exists reasons, actions :: Explains(df, FlagsOf(fs), reasons, actions, res.frame)
  }

  method Validate(df: Frame, doc: Option<seq<RawRule>>) returns (res: Verdict)
    requires WellFormed(df)
    ensures Reports(df, RulesOf(doc), res)
  {
    var rules := RulesOf(doc);
    var flagged: seq<seq<Row>> := [];
    var i := 0;
    while i < |rules|
      invariant 0 <= i <= |rules|
      invariant Collect(df, rules[..i]) == Collecting(flagged)
    {
      var rule := rules[i];
      assert rules[..i + 1] == rules[..i] + [rule];
      CollectSnoc(df, rules[..i], rule);
      var step := ApplyRule(df, rule);
      if step.Abort? || step.Propagate? {
        CollectStops(df, rules, i + 1);
        return if step.Abort? then EmptyTable else Failed;
      }
      if step.Append? {
        flagged := flagged + [step.flagged];
      }
      i := i + 1;
    }
    assert rules[..i] == rules;
    res := Merge(df, flagged);
  }

  /** The steps after the loop: nothing flagged gives `None`, otherwise the merge. */
  method Merge(df: Frame, flagged: seq<seq<Row>>) returns (res: Verdict)
    requires WellFormed(df)
    ensures flagged == [] ==> res == NoTable
    ensures flagged != [] && !CanAggregate(df) ==> res == Failed
    ensures flagged != [] && CanAggregate(df) ==>
              res.Flagged? && exists reasons, actions :: Explains(df, FlagsOf(flagged), reasons, actions, res.frame)
  {
    if flagged == [] {
      return NoTable;
    }
    var merged := AggregateFlags(df, FlagsOf(flagged));
    if merged.Raised? {
      return Failed;
    }
    return Flagged(merged.value);
  }

  /** Once the loop has left, later rules change nothing. */
  lemma {:induction false} CollectStops(df: Frame, rules: seq<RawRule>, i: nat)
    requires WellFormed(df) && i <= |rules|
    requires !Collect(df, rules[..i]).Collecting?
    ensures Collect(df, rules) == Collect(df, rules[..i])
    decreases |rules| - i
  {
    if i < |rules| {
      assert rules[..i + 1][..i] == rules[..i];
      CollectStops(df, rules, i + 1);
    } else {
      assert rules[..i] == rules;
    }
  }

  /** Rules evaluated after two prefixes that leave the loop in the same state
      behave the same. */
  lemma {:induction false} CollectSuffix(df: Frame, a: seq<RawRule>, b: seq<RawRule>, c: seq<RawRule>)
    requires WellFormed(df)
    requires Collect(df, a) == Collect(df, b)
    ensures Collect(df, a + c) == Collect(df, b + c)
  {
    if c == [] {
      assert a + c == a && b + c == b;
    } else {
      var n := |c| - 1;
      CollectSuffix(df, a, b, c[..n]);
      assert (a + c)[..|a + c| - 1] == a + c[..n] && (a + c)[|a + c| - 1] == c[n];
      assert (b + c)[..|b + c| - 1] == b + c[..n] && (b + c)[|b + c| - 1] == c[n];
    }
  }

  /** A rule whose operator is not a key of the map is skipped: removing it from the
      rule list changes nothing, so the rules after it are still evaluated. */
  lemma UnsupportedOperatorSkipped(df: Frame, a: seq<RawRule>, rule: RawRule, c: seq<RawRule>)
    requires WellFormed(df)
    requires rule.field.Some? && rule.operator.Some? && rule.value.Some?
    requires ParseOperator(rule.operator.value).None?
    ensures Collect(df, a + [rule] + c) == Collect(df, a + c)
  {
    assert (a + [rule])[..|a|] == a;
    CollectSuffix(df, a + [rule], a, c);
  }

  /** A caught exception discards the flags of every earlier rule: whatever follows,
      `validate` returns the empty table. */
  lemma AbortDiscardsFlags(df: Frame, a: seq<RawRule>, rule: RawRule, c: seq<RawRule>, res: Verdict)
    requires WellFormed(df)
    requires Collect(df, a).Collecting? && ApplyRule(df, rule) == Abort
    requires Reports(df, a + [rule] + c, res)
    ensures res == EmptyTable
  {
    var rules := a + [rule] + c;
    assert rules[..|a| + 1] == a + [rule];
    assert (a + [rule])[..|a|] == a;
    CollectStops(df, rules, |a| + 1);
  }

  /** Without rules, or when every operator is unsupported, nothing is flagged and
      `validate` returns `None`. */
  lemma {:induction false} AllUnsupportedNoTable(df: Frame, rules: seq<RawRule>, res: Verdict)
    requires WellFormed(df)
    requires forall i :: 0 <= i < |rules| ==> ApplyRule(df, rules[i]) == Skip
    requires Reports(df, rules, res)
    ensures res == NoTable
  {
    AllSkipped(df, rules);
  }

  lemma {:induction false} AllSkipped(df: Frame, rules: seq<RawRule>)
    requires WellFormed(df)
    requires forall i :: 0 <= i < |rules| ==> ApplyRule(df, rules[i]) == Skip
    ensures Collect(df, rules) == Collecting([])
  {
    if rules != [] {
      AllSkipped(df, rules[..|rules| - 1]);
    }
  }

  /** A rule list absent from the document means no rules, hence `None`. */
  lemma AbsentRulesNoTable(df: Frame, res: Verdict)
    requires WellFormed(df)
    requires Reports(df, RulesOf(None), res)
    ensures res == NoTable
  {
    AllUnsupportedNoTable(df, [], res);
  }

  /** Frames collected so far stay at the front of the list. */
  lemma {:induction false} CollectExtends(df: Frame, a: seq<RawRule>, c: seq<RawRule>)
    requires WellFormed(df)
    requires Collect(df, a).Collecting? && Collect(df, a + c).Collecting?
    ensures |Collect(df, a).frames| <= |Collect(df, a + c).frames|
    ensures Collect(df, a + c).frames[..|Collect(df, a).frames|] == Collect(df, a).frames
  {
    if c == [] {
      assert a + c == a;
    } else {
      var n := |c| - 1;
      assert (a + c)[..|a + c| - 1] == a + c[..n];
      if !Collect(df, a + c[..n]).Collecting? {
        assert false;
      }
      CollectExtends(df, a, c[..n]);
    }
  }

  /** A supported rule that matches no row still adds its (empty) frame, so once the
      loop completes a table is returned rather than `None`. */
  lemma MatchedNothingStillReported(df: Frame, a: seq<RawRule>, rule: RawRule, c: seq<RawRule>, res: Verdict)
    requires WellFormed(df) && CanAggregate(df)
    requires Collect(df, a).Collecting? && ApplyRule(df, rule).Append?
    requires Collect(df, a + [rule] + c).Collecting?
    requires Reports(df, a + [rule] + c, res)
    ensures res.Flagged?
  {
    assert (a + [rule])[..|a|] == a;
    CollectExtends(df, a + [rule], c);
  }

  /** The flagged table has one row per distinct input row, in input order, with the
      input's cells unchanged plus Reason and Action. */
  lemma FlaggedTableRows(df: Frame, rules: seq<RawRule>, out: Frame)
    requires WellFormed(df)
    requires Reports(df, rules, Flagged(out))
    ensures |out.rows| == |DropDuplicates(df.rows)|
    ensures forall i :: 0 <= i < |out.rows| ==> out.rows[i] - {ReasonCol, ActionCol} == DropDuplicates(df.rows)[i]
    ensures out.columns == df.columns + {ReasonCol, ActionCol} && WellFormed(out)
    ensures Distinct(df.rows) ==> |out.rows| == |df.rows|
  {
    var fs := Collect(df, rules).frames;
    var reasons, actions :| Explains(df, FlagsOf(fs), reasons, actions, out);
    FlaggedRowsMatchBase(df, FlagsOf(fs), reasons, actions, out);
  }

  // ---------------------------------------------------------------------------
  // The four-customer example: an amount rule and a country rule.

  function SampleRow(id: real, amount: real, country: string): Row
  {
    map[CustomerId := Num(id), "Amount" := Num(amount), "Country" := Str(country)]
  }

  function SampleTable(): Frame
  {
    Frame({CustomerId, "Amount", "Country"},
          [SampleRow(1.0, 100.0, "US"), SampleRow(2.0, 200.0, "UK"),
           SampleRow(3.0, 300.0, "US"), SampleRow(4.0, 400.0, "FR")])
  }

  function SampleRules(): seq<RawRule>
  {
    [RawRule(Some("High Amount"), Some("Amount"), Some(">"), Some(Scalar(Num(150.0))), Some("Review")),
     RawRule(Some("US Customer"), Some("Country"), Some("=="), Some(Scalar(Str("US"))), Some("Monitor"))]
  }

  /** Both rules apply, so the result is a table with Reason and Action columns and
      one row for each of the four customers. */
  lemma SampleKeepsFourRows(res: Verdict)
    requires Reports(SampleTable(), SampleRules(), res)
    ensures res.Flagged? && |res.frame.rows| == 4
    ensures ReasonCol in res.frame.columns && ActionCol in res.frame.columns
  {
    SampleRulesApply();
    SampleDistinct();
    FlaggedTableRows(SampleTable(), SampleRules(), res.frame);
  }

  lemma SampleRulesApply()
    ensures WellFormed(SampleTable()) && CanAggregate(SampleTable())
    ensures Collect(SampleTable(), SampleRules()).Collecting? && Collect(SampleTable(), SampleRules()).frames != []
  {
    SampleWellFormed();
    SampleRuleApplies(0);
    SampleRuleApplies(1);
    BothAppend(SampleTable(), SampleRules());
  }

  lemma SampleWellFormed()
    ensures WellFormed(SampleTable()) && CanAggregate(SampleTable())
  {
    var df := SampleTable();
    forall i | 0 <= i < |df.rows| ensures df.rows[i].Keys == df.columns {
      assert df.rows[i].Keys == {CustomerId, "Amount", "Country"};
    }
  }

  /** Two rules that both append leave the loop collecting, with their frames. */
  lemma BothAppend(df: Frame, rules: seq<RawRule>)
    requires WellFormed(df) && |rules| == 2
    requires ApplyRule(df, rules[0]).Append? && ApplyRule(df, rules[1]).Append?
    ensures Collect(df, rules).Collecting? && Collect(df, rules).frames != []
  {
    var r0, r1 := rules[0], rules[1];
    var first := Collect(df, [r0]);
    assert first.Collecting? by {
      CollectSnoc(df, [], r0);
      assert [] + [r0] == [r0];
    }
    assert Collect(df, rules) == Advance(first, ApplyRule(df, r1)) by {
      CollectSnoc(df, [r0], r1);
      assert [r0] + [r1] == rules;
    }
  }

  lemma CollectSnoc(df: Frame, a: seq<RawRule>, rule: RawRule)
    requires WellFormed(df)
    ensures Collect(df, a + [rule]) == Advance(Collect(df, a), ApplyRule(df, rule))
  {
    assert (a + [rule])[..|a + [rule]| - 1] == a;
  }

  lemma SampleRuleApplies(k: nat)
    requires k < 2
    ensures WellFormed(SampleTable())
    ensures ApplyRule(SampleTable(), SampleRules()[k]).Append?
  {
    var df, rule := SampleTable(), SampleRules()[k];
    SampleWellFormed();
    var cells := Column(df.rows, rule.field.value);
    if k == 0 {
      assert ParseOperator(">") == Some(Compares(Gt));
      assert !Textual(cells);
    } else {
      assert ParseOperator("==") == Some(Compares(Eq));
    }
  }

  lemma SampleDistinct()
    ensures Distinct(SampleTable().rows)
  {
    var rows := SampleTable().rows;
    forall i, j | 0 <= i < j < |rows| ensures rows[i] != rows[j] {
      assert rows[i][CustomerId] != rows[j][CustomerId];
    }
  }
}
