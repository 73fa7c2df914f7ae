/** The repair pass that `generate_rules` runs over the rules returned by the
    language model before saving them: every rule gets a usable `field`, and the
    placeholder `value` in its `condition` is replaced by the rule's threshold. */
module RuleRepair {
  import opened Table

  /** A JSON value as it can appear in a generated rule: a string, an integer, or
      anything else (a float, a boolean, null, a list), carried with the text that
      Python's `str()` gives for it. */
  datatype GenValue = GText(s: string) | GInt(i: int) | GOther(rendered: string)

  /** One rule dictionary: the three keys the repair pass reads or writes, and every
      other key (`name`, `operator`, `action`, ...) as it came. */
  datatype GenRule = GenRule(field: Option<GenValue>, condition: Option<GenValue>,
                             value: Option<GenValue>, others: map<string, GenValue>)

  const DefaultField := "Transaction_Amount"
  const Placeholder := "value"

  /** The column list used when the transactions file is absent. */
  const DefaultFields: seq<string> := ["Customer_ID", "Account_Balance", "Transaction_Amount",
    "Reported_Amount", "Currency", "Country", "Transaction_Date", "Risk_Score"]

  /** `str(v)`. */
  function Render(v: GenValue): (r: string)
    ensures v.GInt? ==> r == IntToDecimal(v.i)
    ensures v.GText? ==> r == v.s
  {
    match v
    case GText(s) => s
    case GInt(i) => IntToDecimal(i)
    case GOther(rendered) => rendered
  }

  /** `"field" in rule and rule["field"] in VALID_FIELDS`: only a string can equal a
      column name. */
  predicate HasValidField(rule: GenRule, valid: seq<string>)
  {
    rule.field.Some? && rule.field.value.GText? && rule.field.value.s in valid
  }

  // ---------------------------------------------------------------------------
  // Python's str.replace, and str.split / str.join as its reference
  // ---------------------------------------------------------------------------

  /** `pat` occurs in `s` starting at index k. */
  predicate Occurs(s: string, pat: string, k: nat)
  {
    k + |pat| <= |s| && s[k..k + |pat|] == pat
  }

  predicate Contains(s: string, pat: string)
  {
    exists k: nat :: k <= |s| && Occurs(s, pat, k)
  }

  lemma OccursShift(s: string, pat: string, j: nat)
    requires |s| >= 1
    ensures Occurs(s[1..], pat, j) <==> Occurs(s, pat, j + 1)
  {
    if j + |pat| <= |s[1..]| {
      assert s[1..][j..j + |pat|] == s[j + 1..j + 1 + |pat|];
    }
  }

  /** `s.replace(pat, rep)`: scanning left to right, every occurrence of `pat` that
      does not overlap an earlier replaced one becomes `rep`. */
  function ReplaceAll(s: string, pat: string, rep: string): (r: string)
    requires pat != []
    decreases |s|
  {
    if |s| < |pat| then s
    else if s[..|pat|] == pat then rep + ReplaceAll(s[|pat|..], pat, rep)
    else [s[0]] + ReplaceAll(s[1..], pat, rep)
  }

  /** `s.find(pat)`, with -1 as None. */
  function Find(s: string, pat: string): (k: Option<nat>)
    requires pat != []
    ensures k.Some? ==> Occurs(s, pat, k.value)
    ensures k.Some? ==> forall j: nat :: j < k.value ==> !Occurs(s, pat, j)
    ensures k.None? ==> !Contains(s, pat)
    decreases |s|
  {
    if |s| < |pat| then None
    else if s[..|pat|] == pat then Some(0)
    else
      var rest := Find(s[1..], pat);
      assert !Occurs(s, pat, 0);
      assert forall j: nat :: Occurs(s, pat, j + 1) ==> Occurs(s[1..], pat, j) by {
        forall j: nat | Occurs(s, pat, j + 1) ensures Occurs(s[1..], pat, j) {
          OccursShift(s, pat, j);
        }
      }
      match rest
      case None =>
        assert forall j: nat :: !Occurs(s, pat, j) by {
          forall j: nat ensures !Occurs(s, pat, j) {
            if j > 0 { OccursShift(s, pat, j - 1); }
          }
        }
        None
      case Some(k) =>
        OccursShift(s, pat, k);
        assert forall j: nat :: j < k + 1 ==> !Occurs(s, pat, j) by {
          forall j: nat | j < k + 1 ensures !Occurs(s, pat, j) {
            if j > 0 { OccursShift(s, pat, j - 1); }
          }
        }
        Some(k + 1)
  }

  /** `s.split(pat)`: the text between consecutive non-overlapping occurrences. */
  function Split(s: string, pat: string): (pieces: seq<string>)
    requires pat != []
    ensures |pieces| >= 1
    decreases |s|
  {
    match Find(s, pat)
    case None => [s]
    case Some(k) => [s[..k]] + Split(s[k + |pat|..], pat)
  }

  /** `sep.join(pieces)`. */
  function Join(pieces: seq<string>, sep: string): (r: string)
    ensures |pieces| == 1 ==> r == pieces[0]
  {
    if |pieces| == 0 then []
    else if |pieces| == 1 then pieces[0]
    else pieces[0] + sep + Join(pieces[1..], sep)
  }

  lemma JoinCons(a: string, pieces: seq<string>, sep: string)
    requires |pieces| >= 1
    ensures Join([a] + pieces, sep) == a + sep + Join(pieces, sep)
  {
    assert ([a] + pieces)[1..] == pieces;
  }

  /** The text around the first occurrence of `pat` at k. */
  lemma AroundOccurrence(s: string, pat: string, k: nat)
    requires Occurs(s, pat, k)
    ensures s == s[..k] + pat + s[k + |pat|..]
  {
    assert s == s[..k] + s[k..k + |pat|] + s[k + |pat|..];
  }

  /** Splitting on `pat` and joining with `pat` gives the text back. */
  lemma {:induction false} SplitJoin(s: string, pat: string)
    requires pat != []
    ensures Join(Split(s, pat), pat) == s
    decreases |s|
  {
    var f := Find(s, pat);
    if f.Some? {
      var k := f.value;
      var rest := s[k + |pat|..];
      var pieces := Split(rest, pat);
      assert Split(s, pat) == [s[..k]] + pieces;
      assert Join(pieces, pat) == rest by { SplitJoin(rest, pat); }
      assert Join([s[..k]] + pieces, pat) == s[..k] + pat + rest by { JoinCons(s[..k], pieces, pat); }
      AroundOccurrence(s, pat, k);
    }
  }

  /** No piece of a split contains the separator. */
  lemma {:induction false} SplitPiecesFree(s: string, pat: string, i: nat)
    requires pat != []
    requires i < |Split(s, pat)|
    ensures !Contains(Split(s, pat)[i], pat)
    decreases |s|
  {
    var f := Find(s, pat);
    if f.Some? {
      var k := f.value;
      assert Split(s, pat) == [s[..k]] + Split(s[k + |pat|..], pat);
      if i == 0 {
        forall j: nat | j + |pat| <= k ensures !Occurs(s[..k], pat, j) {
          assert !Occurs(s, pat, j) by { assert j < k; }
          assert s[..k][j..j + |pat|] == s[j..j + |pat|];
        }
      } else {
        SplitPiecesFree(s[k + |pat|..], pat, i - 1);
      }
    }
  }

  /** Text with no occurrence of the pattern is left unchanged. */
  lemma {:induction false} ReplaceAbsent(s: string, pat: string, rep: string)
    requires pat != []
    requires !Contains(s, pat)
    ensures ReplaceAll(s, pat, rep) == s
    decreases |s|
  {
    if |s| >= |pat| {
      assert !Occurs(s, pat, 0);
      if Contains(s[1..], pat) {
        var j: nat :| Occurs(s[1..], pat, j);
        OccursShift(s, pat, j);
      }
      ReplaceAbsent(s[1..], pat, rep);
      assert s == [s[0]] + s[1..];
    }
  }

  /** The replacement copies the text before the first occurrence, then the
      replacement, then carries on after the occurrence. */
  lemma {:induction false} ReplaceFirst(pre: string, pat: string, post: string, rep: string)
    requires pat != []
    requires Find(pre + pat + post, pat) == Some(|pre|)
    ensures ReplaceAll(pre + pat + post, pat, rep) == pre + rep + ReplaceAll(post, pat, rep)
  {
    var s := pre + pat + post;
    if pre == [] {
      assert s == pat + post;
      assert s[..|pat|] == pat && s[|pat|..] == post;
    } else {
      var t := pre[1..] + pat + post;
      assert s[1..] == t;
      FindStep(s, pat, |pre|);
      ReplaceStep(s, pat, rep);
      ReplaceFirst(pre[1..], pat, post, rep);
      var after := ReplaceAll(post, pat, rep);
      calc {
        ReplaceAll(s, pat, rep);
        [pre[0]] + ReplaceAll(t, pat, rep);
        [pre[0]] + (pre[1..] + rep + after);
        { ConcatAssoc([pre[0]], pre[1..], rep, after); }
        ([pre[0]] + pre[1..]) + rep + after;
        { assert [pre[0]] + pre[1..] == pre; }
        pre + rep + after;
      }
    }
  }

  /** Past a position where `pat` does not start, the search moves one step on. */
  lemma FindStep(s: string, pat: string, k: nat)
    requires pat != [] && k >= 1
    requires Find(s, pat) == Some(k)
    ensures |s| >= |pat| && s[..|pat|] != pat
    ensures Find(s[1..], pat) == Some(k - 1)
  {
    assert |s| >= |pat| && s[..|pat|] != pat;
    var rest := Find(s[1..], pat);
    assert rest.Some? && Find(s, pat) == Some(rest.value + 1);
  }

  /** Where `pat` does not start, the replacement copies one character. */
  lemma ReplaceStep(s: string, pat: string, rep: string)
    requires pat != [] && |s| >= |pat| && s[..|pat|] != pat
    ensures ReplaceAll(s, pat, rep) == [s[0]] + ReplaceAll(s[1..], pat, rep)
  {
  }

  /** Regrouping four pieces, kept apart so that the sequence equality is proved
      outside the larger proofs that use it. */
  lemma ConcatAssoc(a: string, b: string, c: string, d: string)
    ensures a + (b + c + d) == a + b + c + d
  {
  }

  /** `s.replace(pat, rep) == rep.join(s.split(pat))`: every occurrence is
      replaced, and nothing else changes. */
  lemma {:induction false} ReplaceIsJoinOfSplit(s: string, pat: string, rep: string)
    requires pat != []
    ensures ReplaceAll(s, pat, rep) == Join(Split(s, pat), rep)
    decreases |s|
  {
    var f := Find(s, pat);
    if f.None? {
      ReplaceAbsent(s, pat, rep);
    } else {
      var k := f.value;
      var rest := s[k + |pat|..];
      AroundOccurrence(s, pat, k);
      ReplaceFirst(s[..k], pat, rest, rep);
      ReplaceIsJoinOfSplit(rest, pat, rep);
      assert Split(s, pat) == [s[..k]] + Split(rest, pat);
      JoinCons(s[..k], Split(rest, pat), rep);
    }
  }

  /** Replacing the pattern by itself is the identity. */
  lemma ReplaceBySelf(s: string, pat: string)
    requires pat != []
    ensures ReplaceAll(s, pat, pat) == s
  {
    ReplaceIsJoinOfSplit(s, pat, pat);
    SplitJoin(s, pat);
  }

  // ---------------------------------------------------------------------------
  // One rule and the loop
  // ---------------------------------------------------------------------------

  /** The effect of the repair on one rule: the field fallback, then the
      substitution into `condition`, which raises when `condition` is not a
      string (it has no `replace`). */
  function Repair(rule: GenRule, valid: seq<string>): (r: Outcome<GenRule>)
  {
    var fixed := if HasValidField(rule, valid) then rule
                 else rule.(field := Some(GText(DefaultField)));
    if fixed.condition.Some? && fixed.value.Some? then
      match fixed.condition.value
      case GText(c) =>
        Ok(fixed.(condition := Some(GText(ReplaceAll(c, Placeholder, Render(fixed.value.value))))))
      case _ => Raised
    else Ok(fixed)
  }

  /** A field that is missing or not a known column becomes `Transaction_Amount`;
      a known column is kept. */
  lemma RepairField(rule: GenRule, valid: seq<string>)
    requires Repair(rule, valid).Ok?
    ensures !HasValidField(rule, valid) ==> Repair(rule, valid).value.field == Some(GText(DefaultField))
    ensures HasValidField(rule, valid) ==> Repair(rule, valid).value.field == rule.field
  {
  }

  /** `value` and every key other than `field` and `condition` are left as they came. */
  lemma RepairKeepsOthers(rule: GenRule, valid: seq<string>)
    requires Repair(rule, valid).Ok?
    ensures Repair(rule, valid).value.value == rule.value
    ensures Repair(rule, valid).value.others == rule.others
  {
  }

  /** Without both a `condition` and a `value` the condition is untouched, and the
      rule cannot fail. */
  lemma ConditionUntouched(rule: GenRule, valid: seq<string>)
    requires rule.condition.None? || rule.value.None?
    ensures Repair(rule, valid).Ok?
    ensures Repair(rule, valid).value.condition == rule.condition
  {
  }

  /** With both present, the repair fails exactly when the condition is not a string,
      and otherwise the condition is the pieces between occurrences of `value`
      joined by the rendered threshold. */
  lemma ConditionSubstituted(rule: GenRule, valid: seq<string>)
    requires rule.condition.Some? && rule.value.Some?
    ensures Repair(rule, valid).Raised? <==> !rule.condition.value.GText?
    ensures rule.condition.value.GText? ==>
      Repair(rule, valid).value.condition
        == Some(GText(Join(Split(rule.condition.value.s, Placeholder), Render(rule.value.value))))
  {
    if rule.condition.value.GText? {
      ReplaceIsJoinOfSplit(rule.condition.value.s, Placeholder, Render(rule.value.value));
    }
  }

  /** A condition that does not mention `value` survives the repair as it is. */
  lemma ConditionWithoutPlaceholder(rule: GenRule, valid: seq<string>)
    requires rule.condition.Some? && rule.condition.value.GText?
    requires !Contains(rule.condition.value.s, Placeholder)
    ensures Repair(rule, valid).Ok?
    ensures Repair(rule, valid).value.condition == rule.condition
  {
    if rule.value.Some? {
      ReplaceAbsent(rule.condition.value.s, Placeholder, Render(rule.value.value));
    }
  }

  /** Repairing a whole list: the first rule that raises aborts it. */
  function RepairAll(rules: seq<GenRule>, valid: seq<string>): (r: Outcome<seq<GenRule>>)
    ensures r.Ok? ==> |r.value| == |rules|
    ensures r.Ok? ==> forall i :: 0 <= i < |rules| ==> Repair(rules[i], valid) == Ok(r.value[i])
    ensures r.Raised? <==> exists i :: 0 <= i < |rules| && Repair(rules[i], valid).Raised?
  {
    if rules == [] then Ok([])
    else
      var n := |rules| - 1;
      match RepairAll(rules[..n], valid)
      case Raised =>
        assert forall i :: 0 <= i < n ==> rules[..n][i] == rules[i];
        Raised
      case Ok(init) =>
        match Repair(rules[n], valid)
        case Raised => Raised
        case Ok(last) =>
          assert forall i :: 0 <= i < n ==> rules[..n][i] == rules[i];
          Ok(init + [last])
  }

  /** With the default column list every repaired rule names a known column. */
  lemma DefaultFieldsAlwaysValid(rules: seq<GenRule>, i: nat)
    requires RepairAll(rules, DefaultFields).Ok? && i < |rules|
    ensures HasValidField(RepairAll(rules, DefaultFields).value[i], DefaultFields)
  {
    var r := RepairAll(rules, DefaultFields).value;
    assert Repair(rules[i], DefaultFields) == Ok(r[i]);
    DefaultFieldListed();
    RepairedFieldValid(rules[i], DefaultFields);
  }

  lemma DefaultFieldListed()
    ensures DefaultField in DefaultFields
  {
    assert DefaultFields[2] == DefaultField;
  }

  /** Whenever the fallback is itself a known column, every repaired rule names a
      known column. */
  lemma RepairedFieldValid(rule: GenRule, valid: seq<string>)
    requires DefaultField in valid && Repair(rule, valid).Ok?
    ensures HasValidField(Repair(rule, valid).value, valid)
  {
    RepairField(rule, valid);
  }

  /** With the columns read from the transactions file the fallback need not be one of
      them, so a repaired rule can still name an unknown column. */
  lemma CsvFieldsNotGuaranteed()
    ensures var valid := ["Customer_ID", "Amount"];
            var rule := GenRule(None, None, None, map[]);
            Repair(rule, valid).Ok? && !HasValidField(Repair(rule, valid).value, valid)
  {
    var valid := ["Customer_ID", "Amount"];
    assert DefaultField != valid[0] && DefaultField != valid[1];
  }

  /** The repair loop (`for rule in rules_json`), updating the rule list in place.
      On success every rule has been repaired and the count is unchanged; when a
      condition is not a string the loop stops at the first such rule, whose field
      has already been rebound, and leaves the later rules as they were. */
  method RepairRules(rules: array<GenRule>, valid: seq<string>) returns (ok: bool)
    modifies rules
    ensures ok <==> RepairAll(old(rules[..]), valid).Ok?
    ensures ok ==> rules[..] == RepairAll(old(rules[..]), valid).value
    ensures !ok ==> exists k :: 0 <= k < rules.Length && Stopped(old(rules[..]), rules[..], valid, k)
  {
    var i := 0;
    while i < rules.Length
      invariant 0 <= i <= rules.Length
      invariant forall j :: 0 <= j < i ==> Repair(old(rules[j]), valid) == Ok(rules[j])
      invariant forall j :: i <= j < rules.Length ==> rules[j] == old(rules[j])
    {
      if !HasValidField(rules[i], valid) {
        rules[i] := rules[i].(field := Some(GText(DefaultField)));
      }
      var rule := rules[i];
      if rule.condition.Some? && rule.value.Some? {
        if !rule.condition.value.GText? {
          assert Stopped(old(rules[..]), rules[..], valid, i);
          return false;
        }
        var c := ReplaceAll(rule.condition.value.s, Placeholder, Render(rule.value.value));
        rules[i] := rule.(condition := Some(GText(c)));
      }
      i := i + 1;
    }
    ok := true;
    AllRepaired(old(rules[..]), rules[..], valid);
  }

  /** The state the loop leaves when rule k raises: rules before k repaired, rule k
      with only its field rebound, the rest untouched. */
  ghost predicate Stopped(before: seq<GenRule>, after: seq<GenRule>, valid: seq<string>, k: nat)
  {
    |after| == |before| && k < |before| &&
    Repair(before[k], valid).Raised? &&
    (forall j :: 0 <= j < k ==> Repair(before[j], valid) == Ok(after[j])) &&
    after[k] == (if HasValidField(before[k], valid) then before[k]
                 else before[k].(field := Some(GText(DefaultField)))) &&
    (forall j :: k < j < |before| ==> after[j] == before[j])
  }

  lemma AllRepaired(before: seq<GenRule>, after: seq<GenRule>, valid: seq<string>)
    requires |after| == |before|
    requires forall j :: 0 <= j < |before| ==> Repair(before[j], valid) == Ok(after[j])
    ensures RepairAll(before, valid) == Ok(after)
  {
    var r := RepairAll(before, valid);
    assert r.Ok?;
    assert forall j :: 0 <= j < |before| ==> r.value[j] == after[j];
    assert r.value == after;
  }
}
