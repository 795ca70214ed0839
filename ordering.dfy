/** Python's ordering of `str` values (code point by code point, a proper
    prefix first) and `sorted(set(...))`: the distinct texts of a column in
    increasing order, as `sorted(col.unique())` and the keys of a pandas
    `groupby` give them. */
module Ordering {

  /** `a < b` on Python strings. */
  predicate Less(a: string, b: string)
    decreases |a|
  {
    |b| > 0 && (|a| == 0 || a[0] < b[0] || (a[0] == b[0] && Less(a[1..], b[1..])))
  }

  lemma {:induction false} LessIrreflexive(a: string)
    ensures !Less(a, a)
    decreases |a|
  {
    if |a| > 0 {
      LessIrreflexive(a[1..]);
    }
  }

  lemma {:induction false} LessTransitive(a: string, b: string, c: string)
    requires Less(a, b) && Less(b, c)
    ensures Less(a, c)
    decreases |a|
  {
    if |a| > 0 && a[0] == b[0] && b[0] == c[0] {
      LessTransitive(a[1..], b[1..], c[1..]);
    }
  }

  /** Two different texts are ordered one way or the other. */
  lemma {:induction false} LessTotal(a: string, b: string)
    requires a != b
    ensures Less(a, b) || Less(b, a)
    decreases |a|
  {
    if |a| > 0 && |b| > 0 && a[0] == b[0] {
      assert a == [a[0]] + a[1..] && b == [b[0]] + b[1..];
      LessTotal(a[1..], b[1..]);
    }
  }

  lemma LessAsymmetric(a: string, b: string)
    requires Less(a, b)
    ensures !Less(b, a)
  {
    if Less(b, a) {
      LessTransitive(a, b, a);
      LessIrreflexive(a);
    }
  }

  /** Strictly increasing, hence without repetitions. */
  predicate StrictlySorted(xs: seq<string>)
  {
    forall i, j :: 0 <= i < j < |xs| ==> Less(xs[i], xs[j])
  }

  /** `x` put into its place in a strictly increasing list, unless it is
      already there. */
  function Insert(xs: seq<string>, x: string): (r: seq<string>)
    requires StrictlySorted(xs)
    ensures StrictlySorted(r)
    ensures forall y :: y in r <==> y in xs || y == x
  {
    if xs == [] then [x]
    else if x == xs[0] then xs
    else if Less(x, xs[0]) then
      assert StrictlySorted([x] + xs) by {
        forall j | 0 < j < |xs| + 1
          ensures Less(x, ([x] + xs)[j])
        {
          if j > 1 {
            LessTransitive(x, xs[0], xs[j - 1]);
          }
        }
      }
      [x] + xs
    else
      var rest := Insert(xs[1..], x);
      assert Less(xs[0], x) by {
        LessTotal(x, xs[0]);
      }
      assert forall y :: y in rest ==> Less(xs[0], y);
      [xs[0]] + rest
  }

  /** `sorted(set(xs))`: the distinct texts of `xs`, in increasing order. */
  function SortedDistinct(xs: seq<string>): (r: seq<string>)
    ensures StrictlySorted(r)
    ensures forall y :: y in r <==> y in xs
  {
    if xs == [] then [] else Insert(SortedDistinct(xs[..|xs| - 1]), xs[|xs| - 1])
  }

  /** A strictly increasing list holds each text once. */
  lemma SortedHasNoRepeats(xs: seq<string>, i: nat, j: nat)
    requires StrictlySorted(xs) && i < |xs| && j < |xs| && xs[i] == xs[j]
    ensures i == j
  {
    if i < j || j < i {
      LessIrreflexive(xs[i]);
    }
  }

  /** The first text of a strictly increasing list comes before every other. */
  lemma FirstIsLeast(xs: seq<string>, y: string)
    requires StrictlySorted(xs) && y in xs && y != xs[0]
    ensures Less(xs[0], y)
  {
    var k :| 0 <= k < |xs| && xs[k] == y;
  }

  lemma {:induction false} SortedUnique(xs: seq<string>, ys: seq<string>)
    requires StrictlySorted(xs) && StrictlySorted(ys)
    requires forall y :: y in xs <==> y in ys
    ensures xs == ys
    decreases |xs|
  {
    if xs != [] && ys != [] {
      assert xs[0] in xs && ys[0] in ys;
      if xs[0] != ys[0] {
        FirstIsLeast(xs, ys[0]);
        FirstIsLeast(ys, xs[0]);
        LessAsymmetric(xs[0], ys[0]);
      }
      assert xs == [xs[0]] + xs[1..] && ys == [ys[0]] + ys[1..];
      forall y
        ensures y in xs[1..] <==> y in ys[1..]
      {
        if y in xs[1..] {
          var k :| 0 <= k < |xs[1..]| && xs[1..][k] == y;
          assert xs[k + 1] == y && Less(xs[0], y);
          assert y in ys;
          var m :| 0 <= m < |ys| && ys[m] == y;
          if m == 0 {
            LessIrreflexive(y);
          }
          assert ys[1..][m - 1] == y;
        }
        if y in ys[1..] {
          var k :| 0 <= k < |ys[1..]| && ys[1..][k] == y;
          assert ys[k + 1] == y && Less(ys[0], y);
          assert y in xs;
          var m :| 0 <= m < |xs| && xs[m] == y;
          if m == 0 {
            LessIrreflexive(y);
          }
          assert xs[1..][m - 1] == y;
        }
      }
      SortedUnique(xs[1..], ys[1..]);
    } else if xs != [] {
      HeadIn(xs);
    } else if ys != [] {
      HeadIn(ys);
    }
  }

  lemma HeadIn(xs: seq<string>)
    requires xs != []
    ensures xs[0] in xs
  {
  }
}
