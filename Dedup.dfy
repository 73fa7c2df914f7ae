/** `DataFrame.drop_duplicates()`: keep the first occurrence of every row, in order,
    and the facts about it that the flag aggregation needs. */
module Dedup {

  ghost predicate Distinct<T>(s: seq<T>)
  {
    forall i, j :: 0 <= i < j < |s| ==> s[i] != s[j]
  }

  /** The first occurrence of every element, in order of first occurrence. */
  function DropDuplicates<T(==,!new)>(s: seq<T>): (r: seq<T>)
    ensures Distinct(r)
    ensures forall x :: x in r <==> x in s
    ensures |r| <= |s|
  {
    if s == [] then []
    else
      var init := DropDuplicates(s[..|s| - 1]);
      var last := s[|s| - 1];
      assert forall x :: x in s <==> x in s[..|s| - 1] || x == last;
      if last in init then init else init + [last]
  }

  /** `idx` lists where the elements of `r` come from in `s`: the `k`-th element of `r`
      is the one at `idx[k]`, the positions increase, each is a first occurrence, and
      every first occurrence is among them. */
  ghost predicate FirstOccurrences<T>(s: seq<T>, r: seq<T>, idx: seq<nat>)
  {
    && |idx| == |r|
    && (forall k :: 0 <= k < |idx| ==> idx[k] < |s| && r[k] == s[idx[k]] && s[idx[k]] !in s[..idx[k]])
    && (forall k, l :: 0 <= k < l < |idx| ==> idx[k] < idx[l])
    && (forall i :: 0 <= i < |s| && s[i] !in s[..i] ==> i in idx)
  }

  /** The positions of the first occurrences in `s`, in increasing order. */
  ghost function FirstPositions<T>(s: seq<T>): seq<nat>
  {
    if s == [] then []
    else
      var n := |s| - 1;
      if s[n] in s[..n] then FirstPositions(s[..n]) else FirstPositions(s[..n]) + [n]
  }

  /** `drop_duplicates` keeps exactly the first occurrences, in input order. */
  lemma {:induction false} DropDuplicatesKeepsFirst<T(!new)>(s: seq<T>)
    ensures FirstOccurrences(s, DropDuplicates(s), FirstPositions(s))
  {
    if s != [] {
      var n := |s| - 1;
      var front := s[..n];
      DropDuplicatesKeepsFirst(front);
      var init := FirstPositions(front);
      var d := DropDuplicates(front);
      assert s[n] in front <==> s[n] in d;
      FrontOccurrences(s, d, init);
      if s[n] !in front {
        LastOccurrence(s, d, init);
      }
    }
  }

  /** The first occurrences of the front of `s` are first occurrences of `s`. */
  lemma FrontOccurrences<T>(s: seq<T>, d: seq<T>, init: seq<nat>)
    requires s != [] && FirstOccurrences(s[..|s| - 1], d, init)
    ensures s[|s| - 1] in s[..|s| - 1] ==> FirstOccurrences(s, d, init)
    ensures forall k :: 0 <= k < |init| ==> init[k] < |s| - 1 && d[k] == s[init[k]] && s[init[k]] !in s[..init[k]]
  {
    var front := s[..|s| - 1];
    forall k | 0 <= k < |init|
      ensures d[k] == s[init[k]] && s[init[k]] !in s[..init[k]]
    {
      assert front[..init[k]] == s[..init[k]];
    }
    forall i | 0 <= i < |s| - 1 && s[i] !in s[..i]
      ensures i in init
    {
      assert front[..i] == s[..i];
    }
  }

  /** A last element that is new adds its own position at the end (kept apart so
      that the induction step of `DropDuplicatesKeepsFirst` stays small). */
  lemma LastOccurrence<T>(s: seq<T>, d: seq<T>, init: seq<nat>)
    requires s != [] && s[|s| - 1] !in s[..|s| - 1]
    requires FirstOccurrences(s[..|s| - 1], d, init)
    requires forall k :: 0 <= k < |init| ==> d[k] == s[init[k]] && s[init[k]] !in s[..init[k]]
    requires forall i :: 0 <= i < |s| - 1 && s[i] !in s[..i] ==> i in init
    ensures FirstOccurrences(s, d + [s[|s| - 1]], init + [|s| - 1])
  {
  }

  /** A sequence without duplicates is left as it is. */
  lemma {:induction false} DropDuplicatesOfDistinct<T(!new)>(s: seq<T>)
    requires Distinct(s)
    ensures DropDuplicates(s) == s
  {
    if s != [] {
      var init := s[..|s| - 1];
      DropDuplicatesOfDistinct(init);
      assert s[|s| - 1] !in init;
      assert init + [s[|s| - 1]] == s;
    }
  }

  /** `drop_duplicates` is idempotent. */
  lemma DropDuplicatesIdempotent<T(!new)>(s: seq<T>)
    ensures DropDuplicates(DropDuplicates(s)) == DropDuplicates(s)
  {
    DropDuplicatesOfDistinct(DropDuplicates(s));
  }

  function Repeat<T>(x: T, k: nat): (r: seq<T>)
    ensures |r| == k && forall i :: 0 <= i < k ==> r[i] == x
  {
    if k == 0 then [] else Repeat(x, k - 1) + [x]
  }

  /** Appending further copies of an element already at the end changes nothing. */
  lemma {:induction false} DropDuplicatesRepeat<T(!new)>(a: seq<T>, x: T, k: nat)
    requires k >= 1
    ensures DropDuplicates(a + Repeat(x, k)) == DropDuplicates(a + [x])
  {
    if k > 1 {
      DropDuplicatesRepeat(a, x, k - 1);
      var b := a + Repeat(x, k - 1);
      assert a + Repeat(x, k) == b + [x];
      assert (b + [x])[..|b + [x]| - 1] == b;
      assert x in b by { assert b[|b| - 1] == x; }
      assert x in DropDuplicates(b);
    }
  }

  /** Deduplication of `a + [x]` depends on `a` only through its deduplication. */
  lemma DropDuplicatesSnoc<T(!new)>(a: seq<T>, b: seq<T>, x: T)
    requires DropDuplicates(a) == DropDuplicates(b)
    ensures DropDuplicates(a + [x]) == DropDuplicates(b + [x])
  {
    assert (a + [x])[..|a + [x]| - 1] == a;
    assert (b + [x])[..|b + [x]| - 1] == b;
    assert x in a <==> x in b by {
      assert x in a <==> x in DropDuplicates(a);
      assert x in b <==> x in DropDuplicates(b);
    }
  }

  /** Replacing every element by a non-empty run of itself leaves the result of
      `drop_duplicates` unchanged: a join that fans each row out into identical
      copies cannot add rows once duplicates are dropped. */
  lemma {:induction false} DropDuplicatesOfRuns<T(!new)>(xs: seq<T>, runs: seq<nat>)
    requires |runs| == |xs|
    requires forall i :: 0 <= i < |runs| ==> runs[i] >= 1
    ensures DropDuplicates(Runs(xs, runs)) == DropDuplicates(xs)
  {
    if xs != [] {
      var n := |xs| - 1;
      var init, initRuns := xs[..n], runs[..n];
      var front := Runs(init, initRuns);
      assert DropDuplicates(front) == DropDuplicates(init) by { DropDuplicatesOfRuns(init, initRuns); }
      assert Runs(xs, runs) == front + Repeat(xs[n], runs[n]);
      DropDuplicatesRepeat(front, xs[n], runs[n]);
      DropDuplicatesSnoc(front, init, xs[n]);
      LastSplit(xs);
    }
  }

  /** A non-empty sequence is its front followed by its last element. */
  lemma LastSplit<T>(s: seq<T>)
    requires s != []
    ensures s[..|s| - 1] + [s[|s| - 1]] == s
  {
  }

  /** Each element xs[i] repeated runs[i] times, in order. */
  function Runs<T>(xs: seq<T>, runs: seq<nat>): (r: seq<T>)
    requires |runs| == |xs|
  {
    if xs == [] then []
    else Runs(xs[..|xs| - 1], runs[..|xs| - 1]) + Repeat(xs[|xs| - 1], runs[|xs| - 1])
  }

  /** Deduplication commutes with a map that is injective on the elements at hand. */
  lemma {:induction false} DropDuplicatesMap<T(!new), U(!new)>(s: seq<T>, f: T -> U)
    requires forall a, b :: a in s && b in s && f(a) == f(b) ==> a == b
    ensures DropDuplicates(Apply(f, s)) == Apply(f, DropDuplicates(s))
  {
    if s != [] {
      var n := |s| - 1;
      var init, x := s[..n], s[n];
      var d, e := DropDuplicates(init), Apply(f, DropDuplicates(init));
      assert DropDuplicates(Apply(f, init)) == e by { DropDuplicatesMap(init, f); }
      assert f(x) in e <==> x in d by {
        ApplyMember(f, s, n);
        assert f(x) in Apply(f, init) <==> f(x) in DropDuplicates(Apply(f, init));
      }
      assert DropDuplicates(Apply(f, s)) == if f(x) in e then e else e + [f(x)] by {
        ApplySnoc(f, s);
        DropDuplicatesLast(Apply(f, s));
      }
      assert DropDuplicates(s) == if x in d then d else d + [x] by {
        DropDuplicatesLast(s);
      }
      if x !in d {
        ApplyAppendOne(f, d, x);
      }
    }
  }

  lemma DropDuplicatesLast<T(!new)>(s: seq<T>)
    requires s != []
    ensures var init := DropDuplicates(s[..|s| - 1]);
            DropDuplicates(s) == if s[|s| - 1] in init then init else init + [s[|s| - 1]]
  {
  }

  lemma ApplySnoc<T, U>(f: T -> U, s: seq<T>)
    requires s != []
    ensures var a := Apply(f, s);
            a[..|a| - 1] == Apply(f, s[..|s| - 1]) && a[|a| - 1] == f(s[|s| - 1])
  {
    var a := Apply(f, s);
    assert a[..|a| - 1] == Apply(f, s[..|s| - 1]);
  }

  lemma ApplyAppendOne<T, U>(f: T -> U, d: seq<T>, x: T)
    ensures Apply(f, d + [x]) == Apply(f, d) + [f(x)]
  {
    assert |Apply(f, d + [x])| == |Apply(f, d) + [f(x)]|;
  }

  /** Under a map injective on s, the image of s[n] is among the images of the
      elements before it exactly when s[n] is among them. */
  lemma ApplyMember<T, U>(f: T -> U, s: seq<T>, n: nat)
    requires forall a, b :: a in s && b in s && f(a) == f(b) ==> a == b
    requires n < |s|
    ensures f(s[n]) in Apply(f, s[..n]) <==> s[n] in s[..n]
  {
    if f(s[n]) in Apply(f, s[..n]) {
      var j :| 0 <= j < n && Apply(f, s[..n])[j] == f(s[n]);
      assert s[..n][j] in s;
    }
  }

  function Apply<T, U>(f: T -> U, s: seq<T>): (r: seq<U>)
    ensures |r| == |s| && forall i :: 0 <= i < |s| ==> r[i] == f(s[i])
  {
    seq(|s|, i requires 0 <= i < |s| => f(s[i]))
  }
}
