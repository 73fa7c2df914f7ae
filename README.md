# Compliance rule engine: a verified Dafny model

This project models the part of the transaction-compliance backend that evaluates
rules over a table of transactions, aggregates the flags per customer, derives a
risk score, and repairs generated rules before they are saved:

- `services/validate_rules_service.py`, `validate(df, rules)`. Rules use the symbolic
  operators `!=`, `<`, `>`, `<=`, `>=`, `==`, `in` and `not in`. An unknown operator
  skips the rule. An exception inside the per-rule `try` makes the function return an
  empty frame. Otherwise the flagged rows are left-joined onto the input table by
  `Customer_ID`, each customer's reasons and actions are collapsed by
  `format_messages`, and duplicate rows are dropped.
- `validation/validate_rules.py`, `validate(data)`. Rules use the camelCase operators
  `greaterThan` … `notEqual`. A rule with no operator or no value is skipped. A text
  column compared with anything but `equal`/`notEqual` is converted to numbers in
  place (`pd.to_numeric(..., errors="coerce")`). A list value means `isin` whatever
  the operator. Only non-empty matches are recorded. The same merge and aggregation
  then run against the module-level transactions table, and the result is written out.
- `services/risk_score_service.py`, `compute_risk_score(df)`. A missing
  `Risk_Score` gets a random integer in 1..9. `Risk_Score_Adjusted` starts as the
  float of it and gets +2, +3, +1.5 and +4 under four masks. The result is clipped
  to [1, 10].
- `models/rules_generate.py`, the repair loop inside `generate_rules`. A missing or
  unknown `field` becomes `Transaction_Amount`. Every occurrence of `value` in
  `condition` is replaced by `str(rule["value"])`.

Modules:

| file | content |
|---|---|
| `Table.dfy` | cells (`Num`, `Str`, `Null`), rows, frames, the `DataFrame` class, element-wise comparison with pandas' rules, masks and selection, decimal rendering and parsing, `to_numeric`, the raw rule record |
| `Dedup.dfy` | `drop_duplicates()` (first occurrence kept, in order) and its laws |
| `Aggregate.dfy` | tagging, `format_messages`, the left merge on `Customer_ID`, `groupby().transform`, and the whole aggregation as `AggregateFlags` |
| `ServiceValidator.dfy` | the symbolic-operator validator |
| `LegacyValidator.dfy` | the camelCase validator with in-place coercion |
| `RiskScore.dfy` | the risk scorer, in place on a `DataFrame`, against a staged reference |
| `RuleRepair.dfy` | `str.replace` (proved equal to `str.split` then `str.join`) and the rule repair loop over an array of rules |

Cells are modelled as follows:
- Numbers are `real`.
- A missing value (NaN or None) is `Null`.
- A column is numeric exactly when it holds no `Str` cell.

Comparisons follow pandas:
- An ordered comparison involving a missing value is false.
- `!=` involving a missing value is true.
- An ordered comparison between a string and a number raises.
- An ordered comparison of a numeric column with a string operand raises, even when every cell is missing.
- `isin` is plain membership.

Behaviours of the code that the model keeps:
- In the symbolic-operator validator, a failing predicate aborts the whole run with an empty frame. It does not skip only that rule.
- A rule with no `name` key raises again inside the `except` clause that prints the name. The exception therefore escapes `validate`.
- The camelCase validator overwrites the coerced column of its input table.
- The camelCase validator takes the recorded subsets from its input table but merges them onto the transactions table. Once a match is recorded, an input table without `Customer_ID` therefore raises, whatever the transactions table holds.
- Once a rule has coerced the input table's `Customer_ID` to numbers, the recorded keys are numbers or missing. Against text keys in the transactions table the merge raises, because pandas refuses to merge a text key column with a numeric one.
- A missing cell matches `notEqual`, whether it was missing from the start or became missing when an earlier rule coerced the column. Unparseable text is therefore not always excluded.
- An existing `Risk_Score` column is used as it is, without any range check. With a random draw the base lies in 1..9, not 1..10.

The test expectations `Risk_Score + 9` and `Risk_Score + 7` for the sample rows hold only for particular draws. `RiskScore.ThreeSignalsClamped` states exactly which, and `RiskScore.DrawnThreeSignals` carries it over to the drawn base.

Rule JSON documents are parameters:
- A key that is absent is `None`.
- `rules.get("rules", [])` is `RulesOf`.
- The transactions table read at import time by the camelCase validator is the `regulatory` parameter.
- The random draws are the `draws` parameter.
- The column list used by the repair is the `valid` parameter. `DefaultFields` is the fallback list.

## Model

| member | source | states |
|---|---|---|
| Table.Compare | code/src/backend/services/validate_rules_service.py:7-12 | a single cell comparison: `==`/`!=` never raise, a missing value makes every operator false except `!=` (true), `!=` is the negation of non-missing equality, and an ordered comparison raises exactly when one side is text and the other a number |
| Table.CompareColumn | code/src/backend/validation/validate_rules.py:42-53 | a column compared with a scalar is the per-row comparison, and raises exactly when an ordered operator meets a text operand on a numeric column or on a column holding a number, or a numeric operand on a column holding text |
| Table.CompareEach | code/src/backend/services/validate_rules_service.py:7-12 | comparing with a same-length list is the per-position comparison, and raises iff one position raises |
| Table.IsIn | code/src/backend/services/validate_rules_service.py:13-14 | `isin` marks exactly the cells that are members of the list |
| Table.SelectExact | code/src/backend/services/validate_rules_service.py:44 | boolean indexing keeps as many rows as the mask has true entries, and exactly the rows whose mask entry is true |
| Table.SelectInOrder | code/src/backend/services/validate_rules_service.py:44 | the k-th selected row is the row at the k-th true position of the mask |
| Table.TruePositionsIncreasing | code/src/backend/services/validate_rules_service.py:44 | the true positions of a mask are strictly increasing |
| Table.TruePositionsCover | code/src/backend/services/validate_rules_service.py:44 | every true entry of a mask is among its true positions |
| Table.ToNumeric | code/src/backend/validation/validate_rules.py:37 | `to_numeric(errors="coerce")` never leaves text, keeps numbers and missing values, and gives a missing value exactly for unparseable text |
| Table.NatDecimalRoundTrip | code/src/backend/services/validate_rules_service.py:65 | the decimal numeral of a line number denotes that number |
| Table.IntDecimalRoundTrip | code/src/backend/models/rules_generate.py:96 | `str()` of an integer parses back to the same number |
| Dedup.DropDuplicates | code/src/backend/services/validate_rules_service.py:71 | `drop_duplicates` yields distinct rows, exactly the rows of its input, and no more of them |
| Dedup.DropDuplicatesKeepsFirst | code/src/backend/services/validate_rules_service.py:71 | `drop_duplicates` keeps exactly the first occurrence of each row: the k-th result row is the input row at the k-th position holding a row not seen before, and these positions increase |
| Dedup.DropDuplicatesOfDistinct | code/src/backend/services/validate_rules_service.py:71 | a table without duplicate rows is left as it is |
| Dedup.DropDuplicatesIdempotent | code/src/backend/services/validate_rules_service.py:71 | dropping duplicates twice is the same as once |
| Dedup.DropDuplicatesOfRuns | code/src/backend/services/validate_rules_service.py:58-71 | fanning each row out into identical copies (what the merge does) adds nothing once duplicates are dropped |
| Dedup.DropDuplicatesMap | code/src/backend/services/validate_rules_service.py:67-71 | deduplication commutes with a transformation that is injective on the rows at hand |
| Aggregate.TextsAppend | code/src/backend/services/validate_rules_service.py:62 | the distinct non-missing messages of two groups are the union of theirs |
| Aggregate.ListingSize | code/src/backend/services/validate_rules_service.py:62 | `list(set(...))` has one entry per distinct message |
| Aggregate.FormatsNone | code/src/backend/services/validate_rules_service.py:61-65 | no message formats as the empty text |
| Aggregate.FormatsOne | code/src/backend/services/validate_rules_service.py:63-64 | a single message is returned without numbering |
| Aggregate.FormatsSeveral | code/src/backend/services/validate_rules_service.py:65 | several messages are enumerated "1. ", "2. ", … in some order of the set and joined by newlines |
| Aggregate.FormatsPair | code/src/backend/services/validate_rules_service.py:61-65 | two distinct messages format as exactly one of the two numbered orders |
| Aggregate.FormatsHighAmountUsCustomer | code/src/backend/services/validate_rules_service.py:61-65 | the two tags of the sample rules format as one of their two numbered listings |
| Aggregate.FormatMessages | code/src/backend/services/validate_rules_service.py:61-65 | the text built from a group is one `format_messages` can return for its distinct non-missing messages |
| Aggregate.Tagged | code/src/backend/services/validate_rules_service.py:45-46 | tagging adds the Reason and Action columns with the rule's name and action |
| Aggregate.TagSelected | code/src/backend/services/validate_rules_service.py:44-46 | the tagged subset has one row per true mask entry |
| Aggregate.TagSelectedExact | code/src/backend/services/validate_rules_service.py:44-46 | the flagged subset is exactly the matching rows, in table order, each tagged with the rule's name and action |
| Aggregate.LeftMerge | code/src/backend/services/validate_rules_service.py:58 | the left merge keeps at least every base row, and every merged row has Customer_ID, Reason and Action |
| Aggregate.MergeKeysFromBase | code/src/backend/services/validate_rules_service.py:58 | every merged row's customer is a customer of the base table |
| Aggregate.MergeCoversBase | code/src/backend/services/validate_rules_service.py:58 | every base customer appears in the merge |
| Aggregate.GroupOfMerge | code/src/backend/services/validate_rules_service.py:58-68 | the distinct Reason (Action) texts a present customer's group sees after the merge are exactly the tags flagged for that customer |
| Aggregate.GroupOfMergeWithin | code/src/backend/services/validate_rules_service.py:58-68 | a group never sees a tag that was not flagged for its customer |
| Aggregate.MergedGroupTexts | code/src/backend/services/validate_rules_service.py:58-68 | the distinct Reason (Action) texts of one customer's group in the merge are the flag texts of that customer, contributed once per base row of the customer |
| Aggregate.CustomerTextsWithin | code/src/backend/services/validate_rules_service.py:58-68 | what the base rows of a customer contribute to its group never goes beyond the tags flagged for that customer |
| Aggregate.CustomerTextsCover | code/src/backend/services/validate_rules_service.py:58-68 | one base row of a customer is enough for its group to see every tag flagged for that customer |
| Aggregate.FormatCustomer | code/src/backend/services/validate_rules_service.py:67-68 | the transform computes, for a merged row's customer, texts that format that customer's flagged reasons and actions |
| Aggregate.AggregateFlags | code/src/backend/services/validate_rules_service.py:54-71 | the aggregation raises exactly when the base table lacks Customer_ID or already has Reason or Action; otherwise its result is the base table annotated with each customer's formatted texts, duplicates dropped |
| Aggregate.TransformExplained | code/src/backend/services/validate_rules_service.py:58-71 | merging, transforming and deduplicating gives the base table annotated per customer, duplicates dropped |
| Aggregate.RetagIsRuns | code/src/backend/services/validate_rules_service.py:58-68 | after the transform the merge is each annotated base row repeated once per matching flag |
| Aggregate.MergeThenRetag | code/src/backend/services/validate_rules_service.py:58-71 | deduplicating the transformed merge equals deduplicating the annotated base table |
| Aggregate.AnnotateThenDropDuplicates | code/src/backend/services/validate_rules_service.py:67-71 | writing the per-customer Reason and Action onto the base rows and then dropping duplicates equals dropping duplicates first and annotating afterwards |
| Aggregate.StripTags | code/src/backend/services/validate_rules_service.py:45-46 | removing the Reason and Action columns from a tagged row gives the row back |
| Aggregate.FlaggedRowsMatchBase | code/src/backend/services/validate_rules_service.py:58-71 | the result has one row per distinct base row, each equal to it apart from Reason and Action, and keeps every row of a duplicate-free base |
| Aggregate.OutputRowTags | code/src/backend/services/validate_rules_service.py:67-68 | a result row's Reason and Action are missing iff its customer is missing, and otherwise format exactly the tags flagged for its customer |
| Aggregate.SameCustomerSameTags | code/src/backend/services/validate_rules_service.py:67-68 | all rows of one customer carry the same Reason and the same Action |
| Aggregate.NoMatching | code/src/backend/services/validate_rules_service.py:58 | a customer that no flag names joins no flag |
| Aggregate.UnflaggedCustomerGetsEmpty | code/src/backend/services/validate_rules_service.py:61-68 | a present customer with no flagged rule gets empty Reason and Action texts |
| ServiceValidator.ParseOperator | code/src/backend/services/validate_rules_service.py:6-15 | an operator key is recognized only when it is one of the map's symbols |
| ServiceValidator.OperatorRoundTrip | code/src/backend/services/validate_rules_service.py:6-15 | each operator has exactly one symbol, and looking it up gives the operator back |
| ServiceValidator.OperatorKeys | code/src/backend/services/validate_rules_service.py:6-15 | the recognized keys are exactly the eight symbols |
| ServiceValidator.RuleMask | code/src/backend/services/validate_rules_service.py:44 | a computed mask has one entry per row |
| ServiceValidator.MembershipOperators | code/src/backend/services/validate_rules_service.py:13-14 | with a list value `in` is membership and `not in` non-membership, and neither raises |
| ServiceValidator.ScalarMembershipIsEquality | code/src/backend/services/validate_rules_service.py:13-14 | with a scalar value `in` is `==` and `not in` is `!=`, and one is the negation of the other |
| ServiceValidator.ApplyRule | code/src/backend/services/validate_rules_service.py:33-50 | a rule escapes with an exception iff it lacks field, operator or value, or has a known operator and no name; it is skipped iff its operator is unknown; a rule that contributes rows has a name, an action and an existing field |
| ServiceValidator.AbortCases | code/src/backend/services/validate_rules_service.py:43-50 | with a known operator and a name, the rule aborts iff the field is absent, the predicate raises or the action is missing; otherwise it contributes the tagged matching rows |
| ServiceValidator.Merge | code/src/backend/services/validate_rules_service.py:54-78 | no contributed frame gives no table; otherwise the merge raises for an unsuitable base, or gives the aggregated table |
| ServiceValidator.Validate | code/src/backend/services/validate_rules_service.py:29-78 | `validate` returns exactly the verdict the rule loop and the aggregation determine |
| ServiceValidator.CollectStops | code/src/backend/services/validate_rules_service.py:48-50 | once a rule aborts or escapes, later rules change nothing |
| ServiceValidator.CollectSuffix | code/src/backend/services/validate_rules_service.py:33-50 | the loop continues from its state: equal states stay equal under the same further rules |
| ServiceValidator.UnsupportedOperatorSkipped | code/src/backend/services/validate_rules_service.py:38-41 | a rule with an unknown operator can be removed without changing the outcome, so later rules are still evaluated |
| ServiceValidator.AbortDiscardsFlags | code/src/backend/services/validate_rules_service.py:48-50 | a rule that fails inside the `try` makes the result the empty frame, discarding earlier flags |
| ServiceValidator.AllSkipped | code/src/backend/services/validate_rules_service.py:38-41 | rules that are all skipped collect nothing |
| ServiceValidator.AllUnsupportedNoTable | code/src/backend/services/validate_rules_service.py:77-78 | rules that are all skipped make `validate` return no table |
| ServiceValidator.AbsentRulesNoTable | code/src/backend/services/validate_rules_service.py:32 | a document without a rules key returns no table |
| ServiceValidator.CollectExtends | code/src/backend/services/validate_rules_service.py:47 | the collected frames only grow, earlier ones kept in order |
| ServiceValidator.MatchedNothingStillReported | code/src/backend/services/validate_rules_service.py:47-54 | a rule that matched no row still counts as flagged frames, so a suitable table is reported |
| ServiceValidator.FlaggedTableRows | code/src/backend/services/validate_rules_service.py:58-71 | a reported table has one row per distinct input row, equal to it apart from Reason and Action |
| ServiceValidator.SampleKeepsFourRows | code/test/backend/test_validate_rules_service.py:9-26 | the four-customer table with the amount and country rules gives a four-row table with Reason and Action columns |
| ServiceValidator.SampleRuleApplies | code/test/backend/test_validate_rules_service.py:14-18 | each of the two sample rules contributes rows |
| LegacyValidator.CamelOperator | code/src/backend/validation/validate_rules.py:42-53 | only the six camelCase names are dispatched |
| LegacyValidator.CamelRoundTrip | code/src/backend/validation/validate_rules.py:42-53 | each comparison has exactly one camelCase name, mapped back to it |
| LegacyValidator.TagValue | code/src/backend/validation/validate_rules.py:28-29 | `rule.get` of a name or action is missing exactly when the key is absent |
| LegacyValidator.CoercedRows | code/src/backend/validation/validate_rules.py:37 | coercion keeps the number of rows and their columns |
| LegacyValidator.CoercionEffect | code/src/backend/validation/validate_rules.py:36-37 | after coercion the column holds no text: parseable text becomes its number, unparseable text becomes missing, other cells and other columns are unchanged |
| LegacyValidator.CoercionIdempotent | code/src/backend/validation/validate_rules.py:37 | coercing a coerced column changes nothing |
| LegacyValidator.UnparseableNeverMatches | code/src/backend/validation/validate_rules.py:37-53 | an unparseable cell matches no comparison except `notEqual`, which it always matches |
| LegacyValidator.ApplyRule | code/src/backend/validation/validate_rules.py:24-62 | one rule keeps the table well formed and its size; a recorded match is never empty; an incomplete rule changes nothing; a complete rule on a missing field raises |
| LegacyValidator.CoercionHappensFirst | code/src/backend/validation/validate_rules.py:36-37 | the table after a rule is coerced exactly when the column holds text and the operator is neither `equal` nor `notEqual` |
| LegacyValidator.CoercionPersists | code/src/backend/validation/validate_rules.py:37 | a coerced table is not coerced again by the same rule |
| LegacyValidator.ListMeansMembership | code/src/backend/validation/validate_rules.py:40-62 | a list value matches by membership whatever the operator, and records the tagged rows only when some row matches |
| LegacyValidator.ScalarDispatch | code/src/backend/validation/validate_rules.py:42-62 | a scalar value with an unknown operator records nothing; a known one raises exactly when the column comparison raises, and otherwise records the tagged matching rows when there are any |
| LegacyValidator.RunRules | code/src/backend/validation/validate_rules.py:24-62 | the loop keeps the table well formed and its size |
| LegacyValidator.CoerceColumn | code/src/backend/validation/validate_rules.py:37 | the in-place coercion leaves exactly the coerced rows |
| LegacyValidator.ApplyRuleInPlace | code/src/backend/validation/validate_rules.py:25-62 | the loop body leaves the table and records the result as one rule does |
| LegacyValidator.Validate | code/src/backend/validation/validate_rules.py:20-88 | the input table ends as the rule loop leaves it; nothing is written without a recorded match; a crash follows an exception in the loop, recorded subsets without Customer_ID, a transactions table without Customer_ID or already holding Reason or Action, or key columns of which exactly one holds text; otherwise the aggregation over the transactions table is written |
| LegacyValidator.FramesGrow | code/src/backend/validation/validate_rules.py:24-62 | the flagged subsets recorded after the first k rules are a prefix of those recorded after all rules, and each later rule adds at most one |
| LegacyValidator.RunStops | code/src/backend/validation/validate_rules.py:24-62 | after an exception later rules change nothing |
| LegacyValidator.RunSuffix | code/src/backend/validation/validate_rules.py:24-62 | equal loop states stay equal under the same further rules |
| LegacyValidator.IncompleteRuleSkipped | code/src/backend/validation/validate_rules.py:31-33 | a rule with no operator or no value can be removed without changing anything |
| LegacyValidator.AllSkipped | code/src/backend/validation/validate_rules.py:31-33 | incomplete rules leave the table and record nothing |
| LegacyValidator.AllSkippedNothingWritten | code/src/backend/validation/validate_rules.py:24-88 | with only incomplete rules nothing is written and the table is unchanged |
| LegacyValidator.NothingRecordedNothingWritten | code/src/backend/validation/validate_rules.py:64-88 | no recorded match means nothing is written |
| LegacyValidator.MissingCustomerIdCrashes | code/src/backend/validation/validate_rules.py:65-69 | once a match was recorded, data without a Customer_ID column crashes the projection of the recorded subsets, whatever the transactions table |
| LegacyValidator.TextKeysAgainstNumericKeysCrash | code/src/backend/validation/validate_rules.py:36-69 | text keys in the transactions table against recorded keys that are all numbers or missing, as after coercing Customer_ID, make the merge raise instead of writing a table |
| LegacyValidator.WrittenTableRows | code/src/backend/validation/validate_rules.py:69-82 | a table is written only when the data has Customer_ID, the transactions table can be merged and both key columns are of one kind, and it has one row per distinct transactions row, equal to it apart from Reason and Action |
| RiskScore.Clip | code/src/backend/services/risk_score_service.py:27 | `np.clip(x, 1, 10)` lies in [1, 10] and keeps values already in range |
| RiskScore.AsFloat | code/src/backend/services/risk_score_service.py:11 | `astype(float)` never leaves text and keeps numbers and missing values |
| RiskScore.AsFloats | code/src/backend/services/risk_score_service.py:11 | the column conversion is per cell and raises iff some cell does not convert |
| RiskScore.SignalMask | code/src/backend/services/risk_score_service.py:14-24 | each computed mask entry is the row's signal |
| RiskScore.AddColumn | code/src/backend/services/risk_score_service.py:8-11 | assigning a column adds it to every row and to the column set |
| RiskScore.AddScores | code/src/backend/services/risk_score_service.py:7-11 | the base and adjusted columns are set as the reference says, or the conversion raises |
| RiskScore.ApplySignal | code/src/backend/services/risk_score_service.py:13-24 | one masked `+=` advances the reference by one signal, or raises |
| RiskScore.ClipAdjusted | code/src/backend/services/risk_score_service.py:26-27 | the adjusted column is replaced by its clipped values |
| RiskScore.ComputeRiskScore | code/src/backend/services/risk_score_service.py:3-29 | the in-place computation leaves the table the reference scoring gives |
| RiskScore.SignalsRowwise | code/src/backend/services/risk_score_service.py:13-27 | the masked updates act on each row independently of the others |
| RiskScore.SignalIgnoresScores | code/src/backend/services/risk_score_service.py:14-24 | no signal depends on the score columns being updated |
| RiskScore.RiskScoreRowwise | code/src/backend/services/risk_score_service.py:3-29 | each row's adjusted score is its clipped base plus its own bonuses, and no other column of it changes |
| RiskScore.ScoresInRange | code/src/backend/services/risk_score_service.py:26-27 | every adjusted score is in [1, 10] unless the base score was missing |
| RiskScore.AdjustedInRange | code/src/backend/services/risk_score_service.py:26-27 | the adjusted value of a non-text base is missing or in [1, 10] |
| RiskScore.DrawnBase | code/src/backend/services/risk_score_service.py:7-8 | without a Risk_Score column each row's base is its draw and its adjusted score is the reference score of that draw |
| RiskScore.SignalConditions | code/src/backend/services/risk_score_service.py:14-24 | the signals are amount > 50000 (strict), balance < 0 (strict), amount differing from the reported amount (a missing value always differs), and a country among the three named |
| RiskScore.NoSignalKeepsBase | code/src/backend/services/risk_score_service.py:11-27 | with no signal a base in range is kept |
| RiskScore.ScoreMonotone | code/src/backend/services/risk_score_service.py:13-27 | the score grows with the base and with every signal |
| RiskScore.HighRiskAloneVisibleUpToSix | code/test/backend/test_risk_score_service.py:46-54 | the country bonus alone shows as `+4` exactly for bases up to 6 |
| RiskScore.ThreeSignalsClamped | code/test/backend/test_risk_score_service.py:27-28 | with the three signals of the test rows the score is base + 9 only for base 1, and base + 7 only for base 3 |
| RiskScore.DrawnBasesInRange | code/src/backend/services/risk_score_service.py:7-8 | with draws in 1..9, as `randint(1, 10)` gives, every base written into a frame without Risk_Score lies in 1..9 |
| RiskScore.DrawnThreeSignals | code/test/backend/test_risk_score_service.py:27-28 | for a drawn base and a row with the test rows' three signals, the written Risk_Score is the draw and the adjusted score is that base + 9 exactly when 1 was drawn and base + 7 exactly when 3 was drawn |
| RuleRepair.Render | code/src/backend/models/rules_generate.py:96 | `str()` of an integer is its decimal numeral and of a string the string itself |
| RuleRepair.Find | code/src/backend/models/rules_generate.py:96 | the first occurrence found is an occurrence with none before it, and none found means none exists |
| RuleRepair.SplitJoin | code/src/backend/models/rules_generate.py:96 | joining the pieces of a split with the separator restores the text |
| RuleRepair.SplitPiecesFree | code/src/backend/models/rules_generate.py:96 | no piece of a split contains the separator |
| RuleRepair.ReplaceAbsent | code/src/backend/models/rules_generate.py:96 | text without the pattern is unchanged by `replace` |
| RuleRepair.ReplaceFirst | code/src/backend/models/rules_generate.py:96 | `replace` copies the text before the first occurrence, writes the replacement and continues after it |
| RuleRepair.ReplaceIsJoinOfSplit | code/src/backend/models/rules_generate.py:96 | `replace` equals splitting on the pattern and joining with the replacement: every non-overlapping occurrence is replaced, left to right, and nothing else changes |
| RuleRepair.ReplaceBySelf | code/src/backend/models/rules_generate.py:96 | replacing the pattern by itself is the identity |
| RuleRepair.RepairField | code/src/backend/models/rules_generate.py:90-92 | a missing or unknown field becomes `Transaction_Amount`, and a known field is kept |
| RuleRepair.RepairKeepsOthers | code/src/backend/models/rules_generate.py:89-96 | the value and every other key of a rule are untouched |
| RuleRepair.ConditionUntouched | code/src/backend/models/rules_generate.py:95 | without both a condition and a value the condition is untouched and the repair cannot fail |
| RuleRepair.ConditionSubstituted | code/src/backend/models/rules_generate.py:95-96 | with both, the repair fails iff the condition is not a string, and otherwise the condition becomes its pieces around `value` joined by the rendered value |
| RuleRepair.ConditionWithoutPlaceholder | code/src/backend/models/rules_generate.py:96 | a condition that does not mention `value` survives unchanged |
| RuleRepair.RepairAll | code/src/backend/models/rules_generate.py:89-103 | the repaired list has as many rules as the input, each the repair of the rule at its position, and it fails iff some rule's repair fails |
| RuleRepair.DefaultFieldsAlwaysValid | code/src/backend/models/rules_generate.py:89-92 | with the default column list every repaired rule names a known column |
| RuleRepair.CsvFieldsNotGuaranteed | code/src/backend/models/rules_generate.py:89-92 | with columns read from the file a repaired rule can still name an unknown column |
| RuleRepair.RepairRules | code/src/backend/models/rules_generate.py:89-96 | the in-place loop leaves the repaired list, same count and order; on a failing condition it stops at the first failing rule with only its field rebound |
| RuleRepair.AllRepaired | code/src/backend/models/rules_generate.py:89 | repairing every rule in place yields the repaired list |

## Left out

- File, environment and network I/O. This covers `load_rules`, the CSV reads and writes, the API key check, the JSON dump, the OpenRouter request and its retry by recursion. Rules, tables and column lists are parameters instead.
- The random generator. The draws are a parameter. They are not constrained to 1..9, because nothing proved here needs that.
- The case where the rules JSON is a dictionary rather than a list of rule objects. Rules that are not dictionaries are left out too.
- Rule names and actions that are not strings. They are modelled as strings or absent.
- Python's `float()` and `to_numeric` beyond plain signed decimals. Exponents, `inf`, `nan` and surrounding spaces are not modelled. The same goes for `str()` of floats, booleans, lists and `None`: `GOther` carries the rendered text as given.
- Floating point. Numbers are exact reals, so rounding in `+= 1.5` and in comparisons is not modelled.
- Dtypes. A column counts as numeric exactly when it holds no text. Dates and integer-versus-float dtypes are not modelled.
- LegacyValidator.KeyKindsDiffer: decides the merge's key-dtype check by this same rule, applied to each side's own cells. The dtype the recorded subsets inherit from the whole input column is not modelled, and neither is pandas' finer type inference (an empty key column, keys mixing integers and text). So a subset whose recorded rows happen to hold no text counts as numeric.
- NaN versus None. Both are `Null`.
- Comparisons with a list value under `==`, `<` and the other plain operators of the symbolic validator. They are modelled as position-by-position comparisons that raise unless the list is as long as the column. pandas' finer rules for lists of mixed types are not modelled.
- The iteration order of `set` in `format_messages`. The model states only that the text is one valid enumeration of the distinct messages.
- The suffixed `Reason_x`/`Reason_y` columns that pandas would create when the base table already has Reason or Action columns. That case is modelled as an exception (the following `groupby` raises).
- Aliasing between rule dictionaries. Each rule is a value in its array slot, so the same dictionary listed twice is not modelled.
