/** What both validators do once the per-rule flags are known: left-join the tags
    onto a base table by `Customer_ID`, collapse each customer's tags with
    `format_messages`, and drop duplicate rows. */
module Aggregate {
  import opened Table
  import opened Dedup

  // ---------------------------------------------------------------------------
  // format_messages

  /** The distinct non-missing texts among some cells (`set(messages.dropna())`). */
  function Texts(cells: seq<Value>): set<string>
  {
    if cells == [] then {}
    else
      var last := cells[|cells| - 1];
      Texts(cells[..|cells| - 1]) + (if last.Str? then {last.s} else {})
  }

  lemma {:induction false} TextsAppend(a: seq<Value>, b: seq<Value>)
    ensures Texts(a + b) == Texts(a) + Texts(b)
  {
    if b != [] {
      var n := |b| - 1;
      TextsAppend(a, b[..n]);
      assert (a + b)[..|a + b| - 1] == a + b[..n];
      assert (a + b)[|a + b| - 1] == b[n];
    } else {
      assert a + b == a;
    }
  }

  /** `order` lists every element of `msgs` exactly once: what `list(set(...))` can
      give, in whatever order the set iterates. */
  ghost predicate IsListing(order: seq<string>, msgs: set<string>)
  {
    && Distinct(order)
    && (forall i :: 0 <= i < |order| ==> order[i] in msgs)
    && (forall m :: m in msgs ==> m in order)
  }

  /** The i-th line of an enumerated message list, `f"{i}. {msg}"`. */
  function NumberedLine(i: nat, m: string): string
  {
    NatToDecimal(i) + ". " + m
  }

  function Enumerated(order: seq<string>): (lines: seq<string>)
    ensures |lines| == |order|
    ensures forall i :: 0 <= i < |order| ==> lines[i] == NumberedLine(i + 1, order[i])
  {
    seq(|order|, i requires 0 <= i < |order| => NumberedLine(i + 1, order[i]))
  }

  /** `"\n".join(lines)`. */
  function JoinLines(lines: seq<string>): string
  {
    if lines == [] then "" else if |lines| == 1 then lines[0] else lines[0] + "\n" + JoinLines(lines[1..])
  }

  /** The text `format_messages` builds from the listing it iterates: a single
      message as it is, otherwise the enumerated lines joined by newlines. */
  function Render(order: seq<string>): string
  {
    if |order| == 1 then order[0] else JoinLines(Enumerated(order))
  }

  /** s is a text `format_messages` can return for the distinct messages msgs. */
  ghost predicate Formats(s: string, msgs: set<string>)
  {
    exists order :: IsListing(order, msgs) && s == Render(order)
  }

  lemma {:induction false} ListingSize(order: seq<string>, msgs: set<string>)
    requires IsListing(order, msgs)
    ensures |order| == |msgs|
  {
    if order != [] {
      var n := |order| - 1;
      var last := order[n];
      var rest := msgs - {last};
      assert IsListing(order[..n], rest) by {
        forall m | m in rest ensures m in order[..n] {
          var j :| 0 <= j < |order| && order[j] == m;
          assert j != n;
        }
      }
      ListingSize(order[..n], rest);
      assert msgs == rest + {last};
    } else {
      assert forall m :: m in msgs ==> false;
      assert msgs == {};
    }
  }

  /** No message gives the empty string, and the empty string is the only text. */
  lemma FormatsNone(s: string)
    ensures Formats(s, {}) <==> s == ""
  {
    if Formats(s, {}) {
      var order :| IsListing(order, {}) && s == Render(order);
      ListingSize(order, {});
    }
    if s == "" {
      assert IsListing([], {}) && s == Render([]);
    }
  }

  /** One distinct message is returned as it is, without a number. */
  lemma FormatsOne(s: string, m: string)
    ensures Formats(s, {m}) <==> s == m
  {
    if Formats(s, {m}) {
      var order :| IsListing(order, {m}) && s == Render(order);
      ListingSize(order, {m});
      assert order[0] in {m};
    }
    if s == m {
      assert IsListing([m], {m}) && s == Render([m]);
    }
  }

  /** Several distinct messages are enumerated from 1, each exactly once. */
  lemma FormatsSeveral(s: string, msgs: set<string>)
    requires |msgs| >= 2 && Formats(s, msgs)
    ensures exists order :: IsListing(order, msgs) && |order| == |msgs| && s == JoinLines(Enumerated(order))
  {
    var order :| IsListing(order, msgs) && s == Render(order);
    ListingSize(order, msgs);
  }

  lemma RenderTwo(a: string, b: string)
    ensures Render([a, b]) == "1. " + a + "\n" + "2. " + b
  {
    assert NatToDecimal(1) == "1" && NatToDecimal(2) == "2";
    var lines := Enumerated([a, b]);
    assert lines[0] == "1. " + a && lines[1] == "2. " + b;
    assert lines[1..] == ["2. " + b];
    assert JoinLines(lines[1..]) == "2. " + b;
  }

  /** A listing of two messages is one of their two orders. */
  lemma ListingOfTwo(order: seq<string>, a: string, b: string)
    requires a != b && IsListing(order, {a, b})
    ensures order == [a, b] || order == [b, a]
  {
    ListingSize(order, {a, b});
    assert order[0] in {a, b} && order[1] in {a, b} && order[0] != order[1];
    assert order == [order[0], order[1]];
  }

  /** Two distinct messages: exactly the two enumerations can come out. */
  lemma FormatsPair(s: string, a: string, b: string)
    requires a != b
    ensures Formats(s, {a, b}) <==>
            s == "1. " + a + "\n" + "2. " + b || s == "1. " + b + "\n" + "2. " + a
  {
    RenderTwo(a, b);
    RenderTwo(b, a);
    if s == Render([a, b]) {
      assert IsListing([a, b], {a, b});
    }
    if s == Render([b, a]) {
      assert IsListing([b, a], {a, b});
    }
    if Formats(s, {a, b}) {
      var order :| IsListing(order, {a, b}) && s == Render(order);
      ListingOfTwo(order, a, b);
    }
  }

  /** The two reasons of a customer in the service's own test ("High Amount" and
      "US Customer") come out numbered, in either order. */
  lemma FormatsHighAmountUsCustomer(s: string)
    ensures Formats(s, {"High Amount", "US Customer"}) <==>
            s == "1. High Amount\n2. US Customer" || s == "1. US Customer\n2. High Amount"
  {
    var a, b := "High Amount", "US Customer";
    assert a != b by { assert a[0] != b[0]; }
    FormatsPair(s, a, b);
    assert "1. " + a + "\n" + "2. " + b == "1. High Amount\n2. US Customer" by {
      assert "1. " + a == "1. High Amount";
      assert "\n" + "2. " + b == "\n2. US Customer";
    }
    assert "1. " + b + "\n" + "2. " + a == "1. US Customer\n2. High Amount" by {
      assert "1. " + b == "1. US Customer";
      assert "\n" + "2. " + a == "\n2. High Amount";
    }
  }

  /** format_messages, with Python's set iteration order as an arbitrary choice. */
  method FormatMessages(messages: seq<Value>) returns (s: string)
    ensures Formats(s, Texts(messages))
  {
    var all := Texts(messages);
    var pending := all;
    var order: seq<string> := [];
    while pending != {}
      invariant Distinct(order)
      invariant forall i :: 0 <= i < |order| ==> order[i] in all && order[i] !in pending
      invariant pending <= all
      invariant forall m :: m in all ==> m in order || m in pending
      decreases pending
    {
      var m :| m in pending;
      order := order + [m];
      pending := pending - {m};
    }
    s := Render(order);
    assert IsListing(order, all);
  }

  // ---------------------------------------------------------------------------
  // The left join by Customer_ID.

  /** A row with its Reason and Action columns set. */
  function Tagged(r: Row, reason: Value, action: Value): (t: Row)
    ensures t.Keys == r.Keys + {ReasonCol, ActionCol}
    ensures t[ReasonCol] == reason && t[ActionCol] == action
  {
    r[ReasonCol := reason][ActionCol := action]
  }

  /** The frame a rule flags: the rows its mask selects, in table order, with the
      rule's reason and action written into the Reason and Action columns. */
  function TagSelected(rows: seq<Row>, mask: seq<bool>, reason: Value, action: Value): (t: seq<Row>)
    requires |mask| == |rows|
    ensures |t| == Count(mask)
  {
    SelectExact(rows, mask);
    Apply((r: Row) => Tagged(r, reason, action), Select(rows, mask))
  }

  /** A rule's flagged frame holds, in table order, a tagged copy of exactly the rows
      where the rule's predicate holds: its k-th row is the row at the k-th true
      position of the mask, and every true position has its row. */
  lemma TagSelectedExact(rows: seq<Row>, mask: seq<bool>, reason: Value, action: Value)
    requires |mask| == |rows|
    ensures var t, idx := TagSelected(rows, mask, reason, action), TruePositions(mask);
            && |t| == |idx| == Count(mask)
            && (forall k :: 0 <= k < |idx| ==> idx[k] < |rows| && mask[idx[k]] && t[k] == Tagged(rows[idx[k]], reason, action))
            && (forall k, l :: 0 <= k < l < |idx| ==> idx[k] < idx[l])
            && (forall i :: 0 <= i < |rows| && mask[i] ==> i in idx)
  {
    SelectInOrder(rows, mask);
    TruePositionsIncreasing(mask);
    TruePositionsCover(mask);
  }

  function Get(r: Row, col: string): Value
  {
    if col in r then r[col] else Null
  }

  /** The `[Customer_ID, Reason, Action]` projection of one flagged row. */
  function ToFlag(r: Row): Flag
  {
    Flag(Get(r, CustomerId), Get(r, ReasonCol), Get(r, ActionCol))
  }

  /** `pd.concat` of the flagged frames. */
  function Concat(frames: seq<seq<Row>>): (rows: seq<Row>)
  {
    if frames == [] then [] else Concat(frames[..|frames| - 1]) + frames[|frames| - 1]
  }

  /** The tags that the merge joins onto the base table. */
  function FlagsOf(frames: seq<seq<Row>>): (flags: seq<Flag>)
    ensures |flags| == |Concat(frames)|
  {
    Apply(ToFlag, Concat(frames))
  }

  /** The flags of one customer, in flag order. */
  function Matching(flags: seq<Flag>, key: Value): (ms: seq<Flag>)
    ensures forall i :: 0 <= i < |ms| ==> ms[i].customer == key
  {
    if flags == [] then []
    else
      var n := |flags| - 1;
      Matching(flags[..n], key) + (if flags[n].customer == key then [flags[n]] else [])
  }

  /** The tag value of a flag in column col (Reason or Action). */
  function Pick(f: Flag, col: string): Value
  {
    if col == ReasonCol then f.reason else f.action
  }

  function Picks(fs: seq<Flag>, col: string): (vs: seq<Value>)
    ensures |vs| == |fs| && forall i :: 0 <= i < |fs| ==> vs[i] == Pick(fs[i], col)
  {
    seq(|fs|, i requires 0 <= i < |fs| => Pick(fs[i], col))
  }

  /** The distinct texts a customer was tagged with in column col. */
  function FlagTexts(flags: seq<Flag>, key: Value, col: string): set<string>
  {
    Texts(Picks(Matching(flags, key), col))
  }

  /** What the left join produces for one base row: one copy per matching flag,
      tagged with that flag, or one copy with missing tags when nothing matches. */
  function Block(r: Row, flags: seq<Flag>): (b: seq<Row>)
    requires CustomerId in r
    ensures |b| >= 1
    ensures forall j :: 0 <= j < |b| ==> b[j].Keys == r.Keys + {ReasonCol, ActionCol} && b[j][CustomerId] == r[CustomerId]
  {
    var ms := Matching(flags, r[CustomerId]);
    if ms == [] then [Tagged(r, Null, Null)]
    else seq(|ms|, i requires 0 <= i < |ms| => Tagged(r, ms[i].reason, ms[i].action))
  }

  /** `base.merge(flags[["Customer_ID", "Reason", "Action"]], on="Customer_ID", how="left")`. */
  function LeftMerge(rows: seq<Row>, flags: seq<Flag>): (m: seq<Row>)
    requires forall i :: 0 <= i < |rows| ==> CustomerId in rows[i]
    ensures |m| >= |rows|
    ensures forall j :: 0 <= j < |m| ==> ReasonCol in m[j] && ActionCol in m[j] && CustomerId in m[j]
  {
    if rows == [] then []
    else
      var n := |rows| - 1;
      LeftMerge(rows[..n], flags) + Block(rows[n], flags)
  }

  /** Every customer of the merged table comes from the base table. */
  lemma {:induction false} MergeKeysFromBase(rows: seq<Row>, flags: seq<Flag>, p: nat)
    requires forall i :: 0 <= i < |rows| ==> CustomerId in rows[i]
    requires p < |LeftMerge(rows, flags)|
    ensures exists i :: 0 <= i < |rows| && rows[i][CustomerId] == LeftMerge(rows, flags)[p][CustomerId]
  {
    var n := |rows| - 1;
    var init := LeftMerge(rows[..n], flags);
    var b := Block(rows[n], flags);
    assert LeftMerge(rows, flags) == init + b;
    if p < |init| {
      MergeKeysFromBase(rows[..n], flags, p);
      var i :| 0 <= i < n && rows[..n][i][CustomerId] == init[p][CustomerId];
      assert rows[i] == rows[..n][i];
    } else {
      assert LeftMerge(rows, flags)[p] == b[p - |init|];
    }
  }

  /** The cells of column col in the rows of one customer (one groupby group). */
  function GroupValues(rows: seq<Row>, key: Value, col: string): seq<Value>
    requires forall i :: 0 <= i < |rows| ==> CustomerId in rows[i] && col in rows[i]
  {
    if rows == [] then []
    else
      var n := |rows| - 1;
      GroupValues(rows[..n], key, col) + (if rows[n][CustomerId] == key then [rows[n][col]] else [])
  }

  lemma {:induction false} GroupValuesAppend(a: seq<Row>, b: seq<Row>, key: Value, col: string)
    requires forall i :: 0 <= i < |a| ==> CustomerId in a[i] && col in a[i]
    requires forall i :: 0 <= i < |b| ==> CustomerId in b[i] && col in b[i]
    ensures GroupValues(a + b, key, col) == GroupValues(a, key, col) + GroupValues(b, key, col)
  {
    if b != [] {
      var n := |b| - 1;
      GroupValuesAppend(a, b[..n], key, col);
      assert (a + b)[..|a + b| - 1] == a + b[..n];
      assert (a + b)[|a + b| - 1] == b[n];
    } else {
      assert a + b == a;
    }
  }

  /** The group of one block: every copy when the block's customer is the key. */
  lemma {:induction false} GroupOfBlock(r: Row, flags: seq<Flag>, key: Value, col: string)
    requires CustomerId in r && (col == ReasonCol || col == ActionCol)
    ensures Texts(GroupValues(Block(r, flags), key, col)) ==
            if r[CustomerId] == key then FlagTexts(flags, key, col) else {}
  {
    if r[CustomerId] != key {
      GroupOfOther(Block(r, flags), key, col);
      assert Texts([]) == {};
    } else if Matching(flags, key) == [] {
      GroupOfUntagged(r, flags, key, col);
    } else {
      GroupOfTagged(r, flags, key, col);
    }
  }

  /** A customer without flags keeps one copy with missing tags: no texts. */
  lemma {:induction false} GroupOfUntagged(r: Row, flags: seq<Flag>, key: Value, col: string)
    requires CustomerId in r && r[CustomerId] == key && (col == ReasonCol || col == ActionCol)
    requires Matching(flags, key) == []
    ensures Texts(GroupValues(Block(r, flags), key, col)) == {} == FlagTexts(flags, key, col)
  {
    var t := Tagged(r, Null, Null);
    assert Block(r, flags) == [t] by {
      assert Matching(flags, r[CustomerId]) == [];
    }
    GroupOfOne(t, key, col);
    TextsOfOne(t[col]);
    assert FlagTexts(flags, key, col) == {} by { assert Picks([], col) == []; }
  }

  /** The group of a single row of that customer is its one cell. */
  lemma GroupOfOne(t: Row, key: Value, col: string)
    requires CustomerId in t && col in t && t[CustomerId] == key
    ensures GroupValues([t], key, col) == [t[col]]
  {
    assert [t][..0] == [];
  }

  /** The texts of a single cell: its string, if it is one. */
  lemma TextsOfOne(v: Value)
    ensures Texts([v]) == if v.Str? then {v.s} else {}
  {
    assert [v][..0] == [];
  }

  /** A customer with flags gets one copy per flag: the group is that flag's column. */
  lemma {:induction false} GroupOfTagged(r: Row, flags: seq<Flag>, key: Value, col: string)
    requires CustomerId in r && r[CustomerId] == key && (col == ReasonCol || col == ActionCol)
    requires Matching(flags, key) != []
    ensures GroupValues(Block(r, flags), key, col) == Picks(Matching(flags, key), col)
  {
    var b := Block(r, flags);
    GroupOfUniform(b, key, col);
  }

  /** When every row belongs to the key's customer, the group is the whole column. */
  lemma {:induction false} GroupOfUniform(rows: seq<Row>, key: Value, col: string)
    requires forall i :: 0 <= i < |rows| ==> CustomerId in rows[i] && col in rows[i] && rows[i][CustomerId] == key
    ensures |GroupValues(rows, key, col)| == |rows|
    ensures forall i :: 0 <= i < |rows| ==> GroupValues(rows, key, col)[i] == rows[i][col]
  {
    if rows != [] {
      GroupOfUniform(rows[..|rows| - 1], key, col);
    }
  }

  /** When no row belongs to the key's customer, the group is empty. */
  lemma {:induction false} GroupOfOther(rows: seq<Row>, key: Value, col: string)
    requires forall i :: 0 <= i < |rows| ==> CustomerId in rows[i] && col in rows[i] && rows[i][CustomerId] != key
    ensures GroupValues(rows, key, col) == []
  {
    if rows != [] {
      GroupOfOther(rows[..|rows| - 1], key, col);
    }
  }

  /** The group of a customer in the merge of rows splits at the last base row. */
  lemma MergeGroupSplit(rows: seq<Row>, flags: seq<Flag>, key: Value, col: string)
    requires forall i :: 0 <= i < |rows| ==> CustomerId in rows[i]
    requires rows != [] && (col == ReasonCol || col == ActionCol)
    ensures Texts(GroupValues(LeftMerge(rows, flags), key, col)) ==
            Texts(GroupValues(LeftMerge(rows[..|rows| - 1], flags), key, col)) +
            (if rows[|rows| - 1][CustomerId] == key then FlagTexts(flags, key, col) else {})
  {
    var n := |rows| - 1;
    var m0 := LeftMerge(rows[..n], flags);
    var b := Block(rows[n], flags);
    assert LeftMerge(rows, flags) == m0 + b;
    GroupValuesAppend(m0, b, key, col);
    TextsAppend(GroupValues(m0, key, col), GroupValues(b, key, col));
    GroupOfBlock(rows[n], flags, key, col);
  }

  /** The texts a customer's group collects, base row by base row: a row of that
      customer contributes all of the customer's tags, any other row nothing. */
  function CustomerTexts(rows: seq<Row>, flags: seq<Flag>, key: Value, col: string): set<string>
    requires forall i :: 0 <= i < |rows| ==> CustomerId in rows[i]
  {
    if rows == [] then {}
    else
      var n := |rows| - 1;
      CustomerTexts(rows[..n], flags, key, col) + (if rows[n][CustomerId] == key then FlagTexts(flags, key, col) else {})
  }

  /** The group of a customer in the merged table collects what CustomerTexts says. */
  lemma {:induction false} MergedGroupTexts(rows: seq<Row>, flags: seq<Flag>, key: Value, col: string)
    requires forall i :: 0 <= i < |rows| ==> CustomerId in rows[i]
    requires col == ReasonCol || col == ActionCol
    ensures Texts(GroupValues(LeftMerge(rows, flags), key, col)) == CustomerTexts(rows, flags, key, col)
  {
    if rows == [] {
      assert Texts([]) == {};
    } else {
      MergeGroupSplit(rows, flags, key, col);
      MergedGroupTexts(rows[..|rows| - 1], flags, key, col);
    }
  }

  lemma {:induction false} CustomerTextsWithin(rows: seq<Row>, flags: seq<Flag>, key: Value, col: string)
    requires forall i :: 0 <= i < |rows| ==> CustomerId in rows[i]
    ensures CustomerTexts(rows, flags, key, col) <= FlagTexts(flags, key, col)
  {
    if rows != [] {
      CustomerTextsWithin(rows[..|rows| - 1], flags, key, col);
    }
  }

  lemma {:induction false} CustomerTextsCover(rows: seq<Row>, flags: seq<Flag>, key: Value, col: string, w: nat)
    requires forall i :: 0 <= i < |rows| ==> CustomerId in rows[i]
    requires w < |rows| && rows[w][CustomerId] == key
    ensures FlagTexts(flags, key, col) <= CustomerTexts(rows, flags, key, col)
  {
    var n := |rows| - 1;
    if w < n {
      assert rows[..n][w] == rows[w];
      CustomerTextsCover(rows[..n], flags, key, col, w);
    }
  }

  /** A customer's group in the merged table never carries a text that is not one of
      that customer's tags. */
  lemma GroupOfMergeWithin(rows: seq<Row>, flags: seq<Flag>, key: Value, col: string)
    requires forall i :: 0 <= i < |rows| ==> CustomerId in rows[i]
    requires col == ReasonCol || col == ActionCol
    ensures Texts(GroupValues(LeftMerge(rows, flags), key, col)) <= FlagTexts(flags, key, col)
  {
    MergedGroupTexts(rows, flags, key, col);
    CustomerTextsWithin(rows, flags, key, col);
  }

  /** A customer's group in the merged table carries exactly the texts of that
      customer's flags, provided the customer occurs in the base table (at w). */
  lemma GroupOfMerge(rows: seq<Row>, flags: seq<Flag>, key: Value, col: string, w: nat)
    requires forall i :: 0 <= i < |rows| ==> CustomerId in rows[i]
    requires col == ReasonCol || col == ActionCol
    requires w < |rows| && rows[w][CustomerId] == key
    ensures Texts(GroupValues(LeftMerge(rows, flags), key, col)) == FlagTexts(flags, key, col)
  {
    MergedGroupTexts(rows, flags, key, col);
    CustomerTextsWithin(rows, flags, key, col);
    CustomerTextsCover(rows, flags, key, col, w);
  }

  // ---------------------------------------------------------------------------
  // groupby(...).transform(format_messages) and the whole aggregation.

  /** The formatted text of a customer; missing for a missing key (groupby drops
      NaN keys, so transform leaves those rows missing). */
  function Label(texts: map<Value, string>, key: Value): Value
  {
    if key == Null || key !in texts then Null else Str(texts[key])
  }

  /** A row with the formatted Reason and Action of its customer. */
  function Annotate(reasons: map<Value, string>, actions: map<Value, string>, r: Row): Row
  {
    if CustomerId in r then Tagged(r, Label(reasons, r[CustomerId]), Label(actions, r[CustomerId])) else r
  }

  function AnnotateAll(reasons: map<Value, string>, actions: map<Value, string>, rows: seq<Row>): (a: seq<Row>)
    ensures |a| == |rows| && forall i :: 0 <= i < |rows| ==> a[i] == Annotate(reasons, actions, rows[i])
  {
    seq(|rows|, i requires 0 <= i < |rows| => Annotate(reasons, actions, rows[i]))
  }

  /** The outcome of the aggregation step is explained by per-customer texts:
      every customer of the base table has a Reason and an Action text that
      format_messages can produce from that customer's tags, and the table is the
      base table annotated with them, duplicates dropped. */
  ghost predicate Explains(base: Frame, flags: seq<Flag>, reasons: map<Value, string>,
                           actions: map<Value, string>, out: Frame)
  {
    && (forall i :: 0 <= i < |base.rows| && CustomerId in base.rows[i] && base.rows[i][CustomerId] != Null ==>
          base.rows[i][CustomerId] in reasons && base.rows[i][CustomerId] in actions)
    && (forall k :: k in reasons ==> Formats(reasons[k], FlagTexts(flags, k, ReasonCol)))
    && (forall k :: k in actions ==> Formats(actions[k], FlagTexts(flags, k, ActionCol)))
    && out == Frame(base.columns + {ReasonCol, ActionCol}, DropDuplicates(AnnotateAll(reasons, actions, base.rows)))
  }

  /** The join of the tags needs somewhere to put them: the base table must have a
      Customer_ID column and no Reason or Action column of its own (those would be
      renamed by the merge and the groupby would then raise). */
  predicate CanAggregate(base: Frame)
  {
    CustomerId in base.columns && ReasonCol !in base.columns && ActionCol !in base.columns
  }

  /** Lines 53-71 of either validator: merge, transform, drop_duplicates. */
  method AggregateFlags(base: Frame, flags: seq<Flag>) returns (res: Outcome<Frame>)
    requires WellFormed(base)
    ensures res.Raised? <==> !CanAggregate(base)
    ensures res.Ok? ==> exists reasons, actions :: Explains(base, flags, reasons, actions, res.value)
  {
    if !CanAggregate(base) {
      return Raised;
    }
    var merged := LeftMerge(base.rows, flags);
    var reasons: map<Value, string> := map[];
    var actions: map<Value, string> := map[];
    var i := 0;
    while i < |merged|
      invariant 0 <= i <= |merged|
      invariant Formatted(flags, reasons, ReasonCol) && Formatted(flags, actions, ActionCol)
      invariant Covered(merged, i, reasons, actions)
    {
      var key := merged[i][CustomerId];
      ghost var before := (reasons, actions);
      if key != Null && (key !in reasons || key !in actions) {
        var r, a := FormatCustomer(base, flags, i);
        reasons := reasons[key := r];
        actions := actions[key := a];
      }
      CoveredStep(merged, i, before.0, before.1, reasons, actions);
      i := i + 1;
    }
    var transformed := Retagged(reasons, actions, merged);
    res := Ok(Frame(base.columns + {ReasonCol, ActionCol}, DropDuplicates(transformed)));
    TransformExplained(base, flags, reasons, actions);
  }

  /** Every text in the map is one format_messages can give for its customer. */
  ghost predicate Formatted(flags: seq<Flag>, texts: map<Value, string>, col: string)
  {
    forall k :: k in texts ==> Formats(texts[k], FlagTexts(flags, k, col))
  }

  /** The customers of the first n rows all have their texts. */
  ghost predicate Covered(rows: seq<Row>, n: nat, reasons: map<Value, string>, actions: map<Value, string>)
  {
    forall j :: 0 <= j < n && j < |rows| && CustomerId in rows[j] && rows[j][CustomerId] != Null ==>
      rows[j][CustomerId] in reasons && rows[j][CustomerId] in actions
  }

  lemma CoveredStep(rows: seq<Row>, n: nat, reasons: map<Value, string>, actions: map<Value, string>,
                    reasons': map<Value, string>, actions': map<Value, string>)
    requires n < |rows| && CustomerId in rows[n] && Covered(rows, n, reasons, actions)
    requires reasons.Keys <= reasons'.Keys && actions.Keys <= actions'.Keys
    requires rows[n][CustomerId] != Null ==> rows[n][CustomerId] in reasons' && rows[n][CustomerId] in actions'
    ensures Covered(rows, n + 1, reasons', actions')
  {
  }

  /** One group of the transform: the formatted Reason and Action texts of the
      customer of the i-th merged row. */
  method FormatCustomer(base: Frame, flags: seq<Flag>, i: nat) returns (reason: string, action: string)
    requires WellFormed(base) && CanAggregate(base)
    requires i < |LeftMerge(base.rows, flags)|
    ensures Formats(reason, FlagTexts(flags, LeftMerge(base.rows, flags)[i][CustomerId], ReasonCol))
    ensures Formats(action, FlagTexts(flags, LeftMerge(base.rows, flags)[i][CustomerId], ActionCol))
  {
    var merged := LeftMerge(base.rows, flags);
    var key := merged[i][CustomerId];
    MergeKeysFromBase(base.rows, flags, i);
    var w :| 0 <= w < |base.rows| && base.rows[w][CustomerId] == key;
    GroupOfMerge(base.rows, flags, key, ReasonCol, w);
    GroupOfMerge(base.rows, flags, key, ActionCol, w);
    reason := FormatMessages(GroupValues(merged, key, ReasonCol));
    action := FormatMessages(GroupValues(merged, key, ActionCol));
  }

  /** After the transform has formatted every customer of the merged table, the
      deduplicated result is explained by those texts. */
  lemma TransformExplained(base: Frame, flags: seq<Flag>, reasons: map<Value, string>, actions: map<Value, string>)
    requires WellFormed(base) && CanAggregate(base)
    requires Formatted(flags, reasons, ReasonCol) && Formatted(flags, actions, ActionCol)
    requires Covered(LeftMerge(base.rows, flags), |LeftMerge(base.rows, flags)|, reasons, actions)
    ensures Explains(base, flags, reasons, actions,
                     Frame(base.columns + {ReasonCol, ActionCol},
                           DropDuplicates(Retagged(reasons, actions, LeftMerge(base.rows, flags)))))
  {
    MergeThenRetag(reasons, actions, base.rows, flags);
    forall j | 0 <= j < |base.rows| && base.rows[j][CustomerId] != Null
      ensures base.rows[j][CustomerId] in reasons && base.rows[j][CustomerId] in actions
    {
      BaseCustomerCovered(base, flags, reasons, actions, j);
    }
  }

  /** A customer of the base table has its texts once every merged row's has. */
  lemma BaseCustomerCovered(base: Frame, flags: seq<Flag>, reasons: map<Value, string>,
                            actions: map<Value, string>, j: nat)
    requires WellFormed(base) && CanAggregate(base)
    requires Covered(LeftMerge(base.rows, flags), |LeftMerge(base.rows, flags)|, reasons, actions)
    requires j < |base.rows| && base.rows[j][CustomerId] != Null
    ensures base.rows[j][CustomerId] in reasons && base.rows[j][CustomerId] in actions
  {
    var merged := LeftMerge(base.rows, flags);
    MergeCoversBase(base.rows, flags, j);
    var p :| 0 <= p < |merged| && merged[p][CustomerId] == base.rows[j][CustomerId];
    assert CustomerId in merged[p];
  }

  /** The transform step over the merged rows. */
  function Retagged(reasons: map<Value, string>, actions: map<Value, string>, merged: seq<Row>): (t: seq<Row>)
    ensures |t| == |merged| && forall i :: 0 <= i < |merged| ==> t[i] == Annotate(reasons, actions, merged[i])
  {
    AnnotateAll(reasons, actions, merged)
  }

  /** Every customer of the base table occurs in the merged table. */
  lemma {:induction false} MergeCoversBase(rows: seq<Row>, flags: seq<Flag>, j: nat)
    requires forall i :: 0 <= i < |rows| ==> CustomerId in rows[i]
    requires j < |rows|
    ensures exists p :: 0 <= p < |LeftMerge(rows, flags)| && LeftMerge(rows, flags)[p][CustomerId] == rows[j][CustomerId]
  {
    var n := |rows| - 1;
    var init := LeftMerge(rows[..n], flags);
    var b := Block(rows[n], flags);
    assert LeftMerge(rows, flags) == init + b;
    if j == n {
      assert LeftMerge(rows, flags)[|init|] == b[0];
    } else {
      MergeCoversBase(rows[..n], flags, j);
      var p :| 0 <= p < |init| && init[p][CustomerId] == rows[..n][j][CustomerId];
      assert LeftMerge(rows, flags)[p] == init[p];
    }
  }

  /** Retagging a tagged copy gives the annotated base row. */
  lemma RetagBlock(reasons: map<Value, string>, actions: map<Value, string>, r: Row, flags: seq<Flag>)
    requires CustomerId in r
    ensures Retagged(reasons, actions, Block(r, flags)) == Repeat(Annotate(reasons, actions, r), |Block(r, flags)|)
  {
    var b := Block(r, flags);
    forall j | 0 <= j < |b| ensures Annotate(reasons, actions, b[j]) == Annotate(reasons, actions, r) {
      assert b[j].Keys == r.Keys + {ReasonCol, ActionCol};
    }
  }

  function BlockSizes(rows: seq<Row>, flags: seq<Flag>): (s: seq<nat>)
    requires forall i :: 0 <= i < |rows| ==> CustomerId in rows[i]
    ensures |s| == |rows| && forall i :: 0 <= i < |rows| ==> s[i] == |Block(rows[i], flags)| && s[i] >= 1
  {
    seq(|rows|, i requires 0 <= i < |rows| => |Block(rows[i], flags)|)
  }

  /** The transformed merged table is the annotated base table with each row
      repeated once per copy the join made of it. */
  lemma {:induction false} MergeThenRetag(reasons: map<Value, string>, actions: map<Value, string>,
                                          rows: seq<Row>, flags: seq<Flag>)
    requires forall i :: 0 <= i < |rows| ==> CustomerId in rows[i]
    ensures DropDuplicates(Retagged(reasons, actions, LeftMerge(rows, flags))) ==
            DropDuplicates(AnnotateAll(reasons, actions, rows))
  {
    RetagIsRuns(reasons, actions, rows, flags);
    DropDuplicatesOfRuns(AnnotateAll(reasons, actions, rows), BlockSizes(rows, flags));
  }

  lemma {:induction false} RetagIsRuns(reasons: map<Value, string>, actions: map<Value, string>,
                                       rows: seq<Row>, flags: seq<Flag>)
    requires forall i :: 0 <= i < |rows| ==> CustomerId in rows[i]
    ensures Retagged(reasons, actions, LeftMerge(rows, flags)) ==
            Runs(AnnotateAll(reasons, actions, rows), BlockSizes(rows, flags))
  {
    if rows != [] {
      var n := |rows| - 1;
      var init := rows[..n];
      RetagIsRuns(reasons, actions, init, flags);
      RetagBlock(reasons, actions, rows[n], flags);
      var m0, b := LeftMerge(init, flags), Block(rows[n], flags);
      assert LeftMerge(rows, flags) == m0 + b;
      RetaggedAppend(reasons, actions, m0, b);
      RunsOfAnnotatedPrefix(reasons, actions, rows, flags);
    }
  }

  /** Retagging works row by row, so it distributes over a concatenation; kept apart
      so that the sequence equality is proved outside `RetagIsRuns`. */
  lemma RetaggedAppend(reasons: map<Value, string>, actions: map<Value, string>, a: seq<Row>, b: seq<Row>)
    ensures Retagged(reasons, actions, a + b) == Retagged(reasons, actions, a) + Retagged(reasons, actions, b)
  {
    assert |Retagged(reasons, actions, a + b)| == |a| + |b|;
  }

  /** The runs of the annotated rows end with the copies of the last row. */
  lemma RunsOfAnnotatedPrefix(reasons: map<Value, string>, actions: map<Value, string>,
                              rows: seq<Row>, flags: seq<Flag>)
    requires forall i :: 0 <= i < |rows| ==> CustomerId in rows[i]
    requires rows != []
    ensures var n := |rows| - 1;
            Runs(AnnotateAll(reasons, actions, rows), BlockSizes(rows, flags)) ==
            Runs(AnnotateAll(reasons, actions, rows[..n]), BlockSizes(rows[..n], flags)) +
            Repeat(Annotate(reasons, actions, rows[n]), |Block(rows[n], flags)|)
  {
    var n := |rows| - 1;
    var xs, sizes := AnnotateAll(reasons, actions, rows), BlockSizes(rows, flags);
    assert xs[..n] == AnnotateAll(reasons, actions, rows[..n]) by { AnnotateAllPrefix(reasons, actions, rows, n); }
    assert sizes[..n] == BlockSizes(rows[..n], flags) by { BlockSizesPrefix(rows, flags, n); }
  }

  /** Annotation and block sizes work row by row, so they commute with taking a
      prefix; each is kept apart so that its sequence equality is proved outside
      `RunsOfAnnotatedPrefix`. */
  lemma AnnotateAllPrefix(reasons: map<Value, string>, actions: map<Value, string>, rows: seq<Row>, n: nat)
    requires n <= |rows|
    ensures AnnotateAll(reasons, actions, rows)[..n] == AnnotateAll(reasons, actions, rows[..n])
  {
  }

  lemma BlockSizesPrefix(rows: seq<Row>, flags: seq<Flag>, n: nat)
    requires forall i :: 0 <= i < |rows| ==> CustomerId in rows[i]
    requires n <= |rows|
    ensures BlockSizes(rows, flags)[..n] == BlockSizes(rows[..n], flags)
  {
  }

  // ---------------------------------------------------------------------------
  // What the flagged table promises.

  lemma StripTags(r: Row, reason: Value, action: Value)
    requires ReasonCol !in r && ActionCol !in r
    ensures Tagged(r, reason, action) - {ReasonCol, ActionCol} == r
  {
    var t := Tagged(r, reason, action) - {ReasonCol, ActionCol};
    assert t.Keys == r.Keys;
  }

  /** After the merge and drop_duplicates there is one row per distinct base row,
      in base order, each carrying that base row's cells unchanged plus Reason and
      Action; a base table without duplicate rows keeps its row count. */
  lemma {:induction false} FlaggedRowsMatchBase(base: Frame, flags: seq<Flag>, reasons: map<Value, string>,
                                                actions: map<Value, string>, out: Frame)
    requires WellFormed(base) && CanAggregate(base)
    requires Explains(base, flags, reasons, actions, out)
    ensures |out.rows| == |DropDuplicates(base.rows)|
    ensures forall i :: 0 <= i < |out.rows| ==> out.rows[i] - {ReasonCol, ActionCol} == DropDuplicates(base.rows)[i]
    ensures WellFormed(out) && out.columns == base.columns + {ReasonCol, ActionCol}
    ensures Distinct(base.rows) ==> |out.rows| == |base.rows|
  {
    var d := DropDuplicates(base.rows);
    assert out.rows == AnnotateAll(reasons, actions, d) by { AnnotateThenDropDuplicates(base, reasons, actions); }
    forall i | 0 <= i < |out.rows| ensures out.rows[i] - {ReasonCol, ActionCol} == d[i] {
      assert d[i] in base.rows;
      StripTags(d[i], Label(reasons, d[i][CustomerId]), Label(actions, d[i][CustomerId]));
    }
    forall i | 0 <= i < |out.rows| ensures out.rows[i].Keys == out.columns {
      assert d[i] in base.rows;
    }
    if Distinct(base.rows) {
      DropDuplicatesOfDistinct(base.rows);
    }
  }

  /** Annotating cannot make two distinct base rows equal, so it commutes with
      drop_duplicates. */
  lemma AnnotateThenDropDuplicates(base: Frame, reasons: map<Value, string>, actions: map<Value, string>)
    requires WellFormed(base) && CanAggregate(base)
    ensures DropDuplicates(AnnotateAll(reasons, actions, base.rows)) ==
            AnnotateAll(reasons, actions, DropDuplicates(base.rows))
  {
    var f := (r: Row) => Annotate(reasons, actions, r);
    forall a, b | a in base.rows && b in base.rows && f(a) == f(b) ensures a == b {
      StripTags(a, Label(reasons, a[CustomerId]), Label(actions, a[CustomerId]));
      StripTags(b, Label(reasons, b[CustomerId]), Label(actions, b[CustomerId]));
    }
    DropDuplicatesMap(base.rows, f);
    assert AnnotateAll(reasons, actions, base.rows) == Apply(f, base.rows);
    assert AnnotateAll(reasons, actions, DropDuplicates(base.rows)) == Apply(f, DropDuplicates(base.rows));
  }

  /** Every row of the flagged table carries its customer's formatted texts: a
      text format_messages gives for that customer's distinct tags, or a missing
      value when the customer id itself is missing. */
  lemma OutputRowTags(base: Frame, flags: seq<Flag>, reasons: map<Value, string>,
                      actions: map<Value, string>, out: Frame, i: nat)
    requires WellFormed(base) && CanAggregate(base)
    requires Explains(base, flags, reasons, actions, out)
    requires i < |out.rows|
    ensures CustomerId in out.rows[i] && ReasonCol in out.rows[i] && ActionCol in out.rows[i]
    ensures var key := out.rows[i][CustomerId];
            && out.rows[i][ReasonCol] == Label(reasons, key)
            && out.rows[i][ActionCol] == Label(actions, key)
            && (key == Null <==> out.rows[i][ReasonCol] == Null)
            && (key != Null ==> out.rows[i][ReasonCol].Str? && Formats(out.rows[i][ReasonCol].s, FlagTexts(flags, key, ReasonCol)))
            && (key != Null ==> out.rows[i][ActionCol].Str? && Formats(out.rows[i][ActionCol].s, FlagTexts(flags, key, ActionCol)))
  {
    var all := AnnotateAll(reasons, actions, base.rows);
    assert out.rows[i] in all;
    var p :| 0 <= p < |all| && all[p] == out.rows[i];
    assert base.rows[p].Keys == base.columns;
  }

  /** All rows of one customer carry identical Reason and Action texts. */
  lemma SameCustomerSameTags(base: Frame, flags: seq<Flag>, reasons: map<Value, string>,
                             actions: map<Value, string>, out: Frame, i: nat, j: nat)
    requires WellFormed(base) && CanAggregate(base)
    requires Explains(base, flags, reasons, actions, out)
    requires i < |out.rows| && j < |out.rows|
    requires CustomerId in out.rows[i] && CustomerId in out.rows[j]
    requires out.rows[i][CustomerId] == out.rows[j][CustomerId]
    ensures ReasonCol in out.rows[i] && ReasonCol in out.rows[j] && out.rows[i][ReasonCol] == out.rows[j][ReasonCol]
    ensures ActionCol in out.rows[i] && ActionCol in out.rows[j] && out.rows[i][ActionCol] == out.rows[j][ActionCol]
  {
    OutputRowTags(base, flags, reasons, actions, out, i);
    OutputRowTags(base, flags, reasons, actions, out, j);
  }

  lemma {:induction false} NoMatching(flags: seq<Flag>, key: Value)
    requires forall f :: f in flags ==> f.customer != key
    ensures Matching(flags, key) == []
  {
    if flags != [] {
      NoMatching(flags[..|flags| - 1], key);
    }
  }

  /** A customer that no rule flagged gets the empty string as Reason and Action. */
  lemma UnflaggedCustomerGetsEmpty(base: Frame, flags: seq<Flag>, reasons: map<Value, string>,
                                   actions: map<Value, string>, out: Frame, i: nat)
    requires WellFormed(base) && CanAggregate(base)
    requires Explains(base, flags, reasons, actions, out)
    requires i < |out.rows| && CustomerId in out.rows[i] && out.rows[i][CustomerId] != Null
    requires forall f :: f in flags ==> f.customer != out.rows[i][CustomerId]
    ensures ReasonCol in out.rows[i] && out.rows[i][ReasonCol] == Str("")
    ensures ActionCol in out.rows[i] && out.rows[i][ActionCol] == Str("")
  {
    var key := out.rows[i][CustomerId];
    OutputRowTags(base, flags, reasons, actions, out, i);
    NoMatching(flags, key);
    assert Texts([]) == {};
    assert FlagTexts(flags, key, ReasonCol) == {} && FlagTexts(flags, key, ActionCol) == {};
    FormatsNone(out.rows[i][ReasonCol].s);
    FormatsNone(out.rows[i][ActionCol].s);
  }
}
