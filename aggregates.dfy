/** The figures the dashboards compute over a column of amounts:
    `Series.sum()` and `mean()`, `groupby(key)[col].sum()`, `idxmax()` with
    its "N/A" fallback, `cumsum()`, and the loop that puts each bar's label
    inside or outside its bar. */
module Aggregates {
  import opened Wrappers
  import opened Ordering

  /** `Series.sum()`: the sum of a column, 0 for an empty one. */
  function Sum(xs: seq<real>): real
  {
    if xs == [] then 0.0 else Sum(xs[..|xs| - 1]) + xs[|xs| - 1]
  }

  predicate NonNegative(xs: seq<real>)
  {
    forall i :: 0 <= i < |xs| ==> xs[i] >= 0.0
  }

  lemma {:induction false} SumNonNegative(xs: seq<real>)
    requires NonNegative(xs)
    ensures Sum(xs) >= 0.0
  {
    if xs != [] {
      SumNonNegative(xs[..|xs| - 1]);
    }
  }

  /** With no negative amounts, a longer prefix never sums to less. */
  lemma {:induction false} SumPrefixGrows(xs: seq<real>, i: nat, j: nat)
    requires NonNegative(xs) && i <= j <= |xs|
    ensures Sum(xs[..i]) <= Sum(xs[..j])
    decreases j - i
  {
    if i < j {
      SumPrefixGrows(xs, i, j - 1);
      assert xs[..j][..j - 1] == xs[..j - 1];
    }
  }

  /** `Series.mean()`: `None` for an empty column (pandas gives NaN). */
  function Mean(xs: seq<real>): (r: Option<real>)
    ensures r.None? <==> xs == []
    ensures r.Some? ==> r.value * |xs| as real == Sum(xs)
  {
    if xs == [] then None else Some(Sum(xs) / |xs| as real)
  }

  // ---------------------------------------------------------------- groups

  /** A row reduced to its grouping key (`None` for a missing one) and its
      amount. */
  type Entry = (Option<string>, real)

  /** The sum of the amounts whose key is `k`. */
  function SumFor(entries: seq<Entry>, k: string): real
  {
    if entries == [] then 0.0
    else (if entries[0].0 == Some(k) then entries[0].1 else 0.0) + SumFor(entries[1..], k)
  }

  /** The sum of the amounts that have a key. */
  function SumKeyed(entries: seq<Entry>): real
  {
    if entries == [] then 0.0
    else (if entries[0].0.Some? then entries[0].1 else 0.0) + SumKeyed(entries[1..])
  }

  /** The keys that are present, in row order, repetitions included. */
  function Keys(entries: seq<Entry>): (r: seq<string>)
    ensures forall k :: k in r <==> exists e :: e in entries && e.0 == Some(k)
  {
    if entries == [] then []
    else
      var rest := Keys(entries[1..]);
      assert forall e :: e in entries <==> e == entries[0] || e in entries[1..];
      if entries[0].0.Some? then [entries[0].0.value] + rest else rest
  }

  /** One group per key of `ks`, with the sum of its amounts. */
  function GroupsOf(entries: seq<Entry>, ks: seq<string>): (r: seq<(string, real)>)
    ensures |r| == |ks|
    ensures forall i :: 0 <= i < |r| ==> r[i] == (ks[i], SumFor(entries, ks[i]))
  {
    if ks == [] then [] else [(ks[0], SumFor(entries, ks[0]))] + GroupsOf(entries, ks[1..])
  }

  /** The keys of a list of groups. */
  function GroupKeys(groups: seq<(string, real)>): (r: seq<string>)
    ensures |r| == |groups|
    ensures forall i :: 0 <= i < |r| ==> r[i] == groups[i].0
  {
    seq(|groups|, i requires 0 <= i < |groups| => groups[i].0)
  }

  /** `df.groupby(key)[col].sum()`: one group per distinct present key, keys
      in increasing order, rows without a key in no group. */
  function GroupSums(entries: seq<Entry>): (r: seq<(string, real)>)
    ensures StrictlySorted(GroupKeys(r))
    ensures forall k :: k in GroupKeys(r) <==> exists e :: e in entries && e.0 == Some(k)
    ensures forall i :: 0 <= i < |r| ==> r[i].1 == SumFor(entries, r[i].0)
  {
    var ks := SortedDistinct(Keys(entries));
    var r := GroupsOf(entries, ks);
    assert GroupKeys(r) == ks;
    r
  }

  /** The sum of the groups' amounts. */
  function Total(groups: seq<(string, real)>): real
  {
    if groups == [] then 0.0 else groups[0].1 + Total(groups[1..])
  }

  /** How much of the amount of `e` the groups of `ks` take in. */
  function Hits(e: Entry, ks: seq<string>): real
  {
    if ks == [] then 0.0 else (if e.0 == Some(ks[0]) then e.1 else 0.0) + Hits(e, ks[1..])
  }

  lemma {:induction false} HitsAbsent(e: Entry, ks: seq<string>)
    requires e.0.None? || e.0.value !in ks
    ensures Hits(e, ks) == 0.0
  {
    if ks != [] {
      HitsAbsent(e, ks[1..]);
    }
  }

  /** Distinct keys take in a keyed amount exactly once. */
  lemma {:induction false} HitsOnce(e: Entry, ks: seq<string>)
    requires StrictlySorted(ks) && e.0.Some? && e.0.value in ks
    ensures Hits(e, ks) == e.1
  {
    if e.0 == Some(ks[0]) {
      forall k | k in ks[1..]
        ensures k != ks[0]
      {
        var j :| 0 <= j < |ks[1..]| && ks[1..][j] == k;
        assert Less(ks[0], ks[j + 1]);
        LessIrreflexive(k);
      }
      HitsAbsent(e, ks[1..]);
    } else {
      HitsOnce(e, ks[1..]);
    }
  }

  /** The groups of `[e] + rest` are those of `rest` plus what `e` adds. */
  lemma {:induction false} GroupsOfCons(e: Entry, rest: seq<Entry>, ks: seq<string>)
    ensures Total(GroupsOf([e] + rest, ks)) == Hits(e, ks) + Total(GroupsOf(rest, ks))
  {
    if ks != [] {
      assert ([e] + rest)[1..] == rest;
      GroupsOfCons(e, rest, ks[1..]);
    }
  }

  lemma {:induction false} GroupsOfNothing(ks: seq<string>)
    ensures Total(GroupsOf([], ks)) == 0.0
  {
    if ks != [] {
      GroupsOfNothing(ks[1..]);
    }
  }

  /** Distinct keys covering every present key share out exactly the keyed
      amounts. */
  lemma {:induction false} GroupsShareOut(entries: seq<Entry>, ks: seq<string>)
    requires StrictlySorted(ks)
    requires forall e :: e in entries && e.0.Some? ==> e.0.value in ks
    ensures Total(GroupsOf(entries, ks)) == SumKeyed(entries)
  {
    if entries == [] {
      GroupsOfNothing(ks);
    } else {
      var e, rest := entries[0], entries[1..];
      assert entries == [e] + rest;
      GroupsOfCons(e, rest, ks);
      if e.0.Some? {
        HitsOnce(e, ks);
      } else {
        HitsAbsent(e, ks);
      }
      GroupsShareOut(rest, ks);
    }
  }

  /** Grouping neither loses nor invents money: the group sums add up to the
      sum of the rows that have a key. */
  lemma GroupSumsTotal(entries: seq<Entry>)
    ensures Total(GroupSums(entries)) == SumKeyed(entries)
  {
    var ks := SortedDistinct(Keys(entries));
    GroupsShareOut(entries, ks);
  }

  // ---------------------------------------------------------------- top group

  /** `idxmax()`: the position of the first largest amount. */
  function MaxIndex(groups: seq<(string, real)>): (i: nat)
    requires groups != []
    ensures i < |groups|
    ensures forall j :: 0 <= j < |groups| ==> groups[j].1 <= groups[i].1
    ensures forall j :: 0 <= j < i ==> groups[j].1 < groups[i].1
  {
    if |groups| == 1 then 0
    else
      var front := groups[..|groups| - 1];
      var b := MaxIndex(front);
      assert forall j :: 0 <= j < |front| ==> front[j] == groups[j];
      if groups[|groups| - 1].1 > groups[b].1 then |groups| - 1 else b
  }

  /** The largest group with its amount, the first one on a tie; `("N/A", 0)`
      when there is no group. */
  function TopGroup(groups: seq<(string, real)>): (r: (string, real))
    ensures groups == [] ==> r == ("N/A", 0.0)
    ensures forall g :: g in groups ==> g.1 <= r.1
    ensures groups != [] ==>
      exists i :: 0 <= i < |groups| && groups[i] == r && forall j :: 0 <= j < i ==> groups[j].1 < r.1
  {
    if groups == [] then ("N/A", 0.0) else groups[MaxIndex(groups)]
  }

  /** Some entry carries the key `k`. */
  predicate Present(entries: seq<Entry>, k: string)
  {
    exists e :: e in entries && e.0 == Some(k)
  }

  /** `groupby(key)[col].sum()` followed by `idxmax()` and `max()`, or
      `("N/A", 0)` when there is no group. */
  function TopKey(entries: seq<Entry>): (string, real)
  {
    TopGroup(GroupSums(entries))
  }

  /** Without keyed entries the answer is `("N/A", 0)`; otherwise it is a
      present key with its sum, no key sums to more, and the keys that sort
      before it sum to strictly less (ties go to the smallest key, because
      the groups come in key order and `idxmax` takes the first). */
  lemma TopKeySpec(entries: seq<Entry>)
    ensures (forall e :: e in entries ==> e.0.None?) ==> TopKey(entries) == ("N/A", 0.0)
    ensures (exists e :: e in entries && e.0.Some?) ==>
      var r := TopKey(entries);
      Present(entries, r.0) && r.1 == SumFor(entries, r.0) &&
      (forall k :: Present(entries, k) ==> SumFor(entries, k) <= r.1) &&
      (forall k :: Present(entries, k) && Less(k, r.0) ==> SumFor(entries, k) < r.1)
  {
    if forall e :: e in entries ==> e.0.None? {
      NoGroupsWithoutKeys(entries);
    } else {
      var e :| e in entries && e.0.Some?;
      TopKeyFound(entries, e.0.value);
    }
  }

  lemma NoGroupsWithoutKeys(entries: seq<Entry>)
    requires forall e :: e in entries ==> e.0.None?
    ensures GroupSums(entries) == []
  {
    var ks := GroupKeys(GroupSums(entries));
    if ks != [] {
      HeadIn(ks);
    }
  }

  lemma TopKeyFound(entries: seq<Entry>, k0: string)
    requires Present(entries, k0)
    ensures var r := TopKey(entries);
      Present(entries, r.0) && r.1 == SumFor(entries, r.0) &&
      (forall k :: Present(entries, k) ==> SumFor(entries, k) <= r.1) &&
      (forall k :: Present(entries, k) && Less(k, r.0) ==> SumFor(entries, k) < r.1)
  {
    TopOfGroups(entries, GroupSums(entries), k0);
  }

  lemma TopOfGroups(entries: seq<Entry>, groups: seq<(string, real)>, k0: string)
    requires StrictlySorted(GroupKeys(groups))
    requires forall k :: k in GroupKeys(groups) <==> Present(entries, k)
    requires forall i :: 0 <= i < |groups| ==> groups[i].1 == SumFor(entries, groups[i].0)
    requires Present(entries, k0)
    ensures var r := TopGroup(groups);
      Present(entries, r.0) && r.1 == SumFor(entries, r.0) &&
      (forall k :: Present(entries, k) ==> SumFor(entries, k) <= r.1) &&
      (forall k :: Present(entries, k) && Less(k, r.0) ==> SumFor(entries, k) < r.1)
  {
    var ks := GroupKeys(groups);
    assert k0 in ks;
    var r := TopGroup(groups);
    var i :| 0 <= i < |groups| && groups[i] == r && forall j :: 0 <= j < i ==> groups[j].1 < r.1;
    assert ks[i] == r.0;
    forall k | Present(entries, k)
      ensures SumFor(entries, k) <= r.1
      ensures Less(k, r.0) ==> SumFor(entries, k) < r.1
    {
      var j := TopBeats(groups, i, k);
    }
  }

  /** The group at `i`, first among the largest, beats every group whose key
      sorts before its own. */
  lemma TopBeats(groups: seq<(string, real)>, i: nat, k: string) returns (j: nat)
    requires StrictlySorted(GroupKeys(groups)) && i < |groups|
    requires forall j :: 0 <= j < i ==> groups[j].1 < groups[i].1
    requires forall g :: g in groups ==> g.1 <= groups[i].1
    requires k in GroupKeys(groups)
    ensures j < |groups| && groups[j].0 == k && groups[j].1 <= groups[i].1
    ensures Less(k, groups[i].0) ==> groups[j].1 < groups[i].1
  {
    var ks := GroupKeys(groups);
    j :| 0 <= j < |ks| && ks[j] == k;
    assert groups[j] in groups;
    if Less(k, groups[i].0) && j >= i {
      if j == i {
        LessIrreflexive(k);
      } else {
        assert Less(ks[i], ks[j]);
        LessAsymmetric(k, groups[i].0);
      }
    }
  }

  // ---------------------------------------------------------------- running total

  /** An amount put in front of a column adds to its sum. */
  lemma {:induction false} SumCons(x: real, ys: seq<real>)
    ensures Sum([x] + ys) == x + Sum(ys)
    decreases |ys|
  {
    if ys != [] {
      var front := ys[..|ys| - 1];
      assert ([x] + ys)[..|ys|] == [x] + front;
      SumCons(x, front);
    }
  }

  /** `cumsum()`: the running totals of a column. */
  method CumulativeSums(values: seq<real>) returns (acc: seq<real>)
    ensures |acc| == |values|
    ensures forall i :: 0 <= i < |values| ==> acc[i] == Sum(values[..i + 1])
    ensures |values| > 0 ==> acc[|values| - 1] == Sum(values)
    ensures NonNegative(values) ==> forall i, j :: 0 <= i <= j < |acc| ==> acc[i] <= acc[j]
  {
    acc := [];
    var running := 0.0;
    var n := 0;
    while n < |values|
      invariant n <= |values| && |acc| == n
      invariant running == Sum(values[..n])
      invariant forall i :: 0 <= i < n ==> acc[i] == Sum(values[..i + 1])
    {
      assert values[..n + 1][..n] == values[..n];
      running := running + values[n];
      acc := acc + [running];
      n := n + 1;
    }
    assert values[..|values|] == values;
    if NonNegative(values) {
      forall i, j | 0 <= i <= j < |acc|
        ensures acc[i] <= acc[j]
      {
        SumPrefixGrows(values, i + 1, j + 1);
      }
    }
  }

  // ---------------------------------------------------------------- bar labels

  /** The largest amount of a non-empty column. */
  function Max(xs: seq<real>): (m: real)
    requires xs != []
    ensures m in xs
    ensures forall i :: 0 <= i < |xs| ==> xs[i] <= m
  {
    if |xs| == 1 then xs[0]
    else
      var m := Max(xs[..|xs| - 1]);
      assert forall i :: 0 <= i < |xs| - 1 ==> xs[..|xs| - 1][i] == xs[i];
      if xs[|xs| - 1] > m then xs[|xs| - 1] else m
  }

  /** A bar's label goes inside it when the bar reaches 15% of the largest. */
  predicate Inside(values: seq<real>, i: nat)
    requires i < |values|
  {
    values[i] >= Max(values) * 0.15
  }

  /** The loop over the bars: position `inside` with colour `white` for a bar
      that reaches the threshold, `outside` with `black` otherwise. */
  method LabelPlacements(values: seq<real>) returns (positions: seq<string>, colors: seq<string>)
    ensures |positions| == |values| && |colors| == |values|
    ensures forall i :: 0 <= i < |values| ==>
      (positions[i] == "inside" && colors[i] == "white" && Inside(values, i)) ||
      (positions[i] == "outside" && colors[i] == "black" && !Inside(values, i))
  {
    positions, colors := [], [];
    if values == [] {
      return;
    }
    var threshold := Max(values) * 0.15;
    for n := 0 to |values|
      invariant |positions| == n && |colors| == n
      invariant forall i :: 0 <= i < n ==>
        (positions[i] == "inside" && colors[i] == "white" && Inside(values, i)) ||
        (positions[i] == "outside" && colors[i] == "black" && !Inside(values, i))
    {
      if values[n] >= threshold {
        positions, colors := positions + ["inside"], colors + ["white"];
      } else {
        positions, colors := positions + ["outside"], colors + ["black"];
      }
    }
  }

  /** With no negative amounts the largest bar carries its label inside. */
  lemma LargestInside(values: seq<real>, i: nat)
    requires NonNegative(values) && i < |values| && values[i] == Max(values)
    ensures Inside(values, i)
  {
  }
}
