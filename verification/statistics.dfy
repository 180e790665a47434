/**
 * Monthly figures of the statistics page: applications are counted per month
 * of their applied date, the months are listed in ascending order, and the
 * busiest month and the chart's scale are derived from those counts.
 */
module Statistics {
  import opened Wrappers
  import opened Search

  /** An application that has an applied date: the value is present and not "". */
  predicate IsDated(a: Application) {
    a.appliedDate.Some? && a.appliedDate.value != []
  }

  /** The month key of a date: its first seven characters ("2024-05" of "2024-05-17"). */
  function MonthKey(date: string): (r: string)
    ensures r <= date && |r| == if |date| < 7 then |date| else 7
  {
    if |date| <= 7 then date else date[..7]
  }

  /** The month keys of the dated applications, one per application, in list order. */
  function Months(apps: seq<Application>): (r: seq<string>)
    ensures |r| <= |apps|
  {
    if apps == [] then []
    else
      var last := apps[|apps| - 1];
      Months(apps[..|apps| - 1]) + (if IsDated(last) then [MonthKey(last.appliedDate.value)] else [])
  }

  /** The number of applications with an applied date. */
  function DatedCount(apps: seq<Application>): nat {
    if apps == [] then 0 else (if IsDated(apps[0]) then 1 else 0) + DatedCount(apps[1..])
  }

  /** The multiplicity map of a multiset: each element that occurs, with its number of occurrences. */
  function CountsOf(m: multiset<string>): (counts: map<string, nat>)
    ensures forall k :: k in counts <==> k in m
    ensures forall k :: k in counts ==> counts[k] == m[k] >= 1
  {
    map k | k in m :: m[k]
  }

  /** The counts per month that groupByMonth is meant to produce. */
  function MonthCounts(apps: seq<Application>): map<string, nat> {
    CountsOf(multiset(Months(apps)))
  }

  /** One more occurrence of k: counts[k] + 1, or 1 for a new key. */
  function AddOne(counts: map<string, nat>, k: string): map<string, nat> {
    counts[k := (if k in counts then counts[k] else 0) + 1]
  }

  lemma CountsOfAdd(m: multiset<string>, k: string)
    ensures CountsOf(m + multiset{k}) == AddOne(CountsOf(m), k)
  {
    var a, b := CountsOf(m + multiset{k}), AddOne(CountsOf(m), k);
    assert a.Keys == b.Keys;
    forall x | x in a ensures a[x] == b[x] {
    }
  }

  /** The counts of the first i + 1 applications, from those of the first i. */
  lemma MonthCountsStep(apps: seq<Application>, i: nat)
    requires i < |apps|
    ensures IsDated(apps[i]) ==>
      MonthCounts(apps[..i + 1]) == AddOne(MonthCounts(apps[..i]), MonthKey(apps[i].appliedDate.value))
    ensures !IsDated(apps[i]) ==> MonthCounts(apps[..i + 1]) == MonthCounts(apps[..i])
  {
    assert apps[..i + 1][..i] == apps[..i];
    if IsDated(apps[i]) {
      var month := MonthKey(apps[i].appliedDate.value);
      assert Months(apps[..i + 1]) == Months(apps[..i]) + [month];
      CountsOfAdd(multiset(Months(apps[..i])), month);
    } else {
      assert Months(apps[..i + 1]) == Months(apps[..i]);
    }
  }

  /** No key is listed twice. */
  predicate Distinct(keys: seq<string>) {
    forall i, j :: 0 <= i < j < |keys| ==> keys[i] != keys[j]
  }

  /** The key list names each counted month exactly once. */
  ghost predicate ListsKeys(keys: seq<string>, counts: map<string, nat>) {
    Distinct(keys) && forall k :: k in keys <==> k in counts
  }

  /**
   * groupByMonth: one pass over the applications, skipping those without an
   * applied date and adding one to the count of each other's month. The keys
   * come back as the object's key list, each once, in no promised order.
   */
  method GroupByMonth(apps: seq<Application>) returns (counts: map<string, nat>, keys: seq<string>)
    ensures counts == MonthCounts(apps)
    ensures ListsKeys(keys, counts)
  {
    counts := map[];
    keys := [];
    var i := 0;
    while i < |apps|
      invariant 0 <= i <= |apps|
      invariant counts == MonthCounts(apps[..i])
      invariant ListsKeys(keys, counts)
    {
      var a := apps[i];
      MonthCountsStep(apps, i);
      if IsDated(a) {
        var month := MonthKey(a.appliedDate.value);
        KeysOfAddOne(keys, counts, month);
        if month !in counts {
          keys := keys + [month];
        }
        counts := AddOne(counts, month);
      }
      i := i + 1;
    }
    assert apps[..i] == apps;
  }

  /** Listing a month the first time it is counted keeps the key list duplicate-free and in step with the counts. */
  lemma KeysOfAddOne(keys: seq<string>, counts: map<string, nat>, month: string)
    requires ListsKeys(keys, counts)
    ensures ListsKeys(if month in counts then keys else keys + [month], AddOne(counts, month))
  {
  }

  lemma {:induction false} MonthsCountDated(apps: seq<Application>)
    ensures |Months(apps)| == DatedCount(apps)
  {
    if apps != [] {
      var n := |apps| - 1;
      MonthsAppend(apps[..1], apps[1..]);
      assert apps[..1] + apps[1..] == apps;
      MonthsCountDated(apps[1..]);
      assert apps[..1][..0] == [];
    }
  }

  lemma {:induction false} MonthsAppend(a: seq<Application>, b: seq<Application>)
    ensures Months(a + b) == Months(a) + Months(b)
    decreases |b|
  {
    if b == [] {
      assert a + b == a;
    } else {
      var n := |b| - 1;
      MonthsAppend(a, b[..n]);
      DropLastOfConcat(a, b);
      assert Months(a + b) == Months(a + b[..n]) + Months([b[n]]);
      assert Months(b) == Months(b[..n]) + Months([b[n]]);
    }
  }

  /** Dropping the last element of a + b drops the last element of b. */
  lemma DropLastOfConcat<T>(a: seq<T>, b: seq<T>)
    requires b != []
    ensures (a + b)[..|a + b| - 1] == a + b[..|b| - 1]
    ensures (a + b)[|a + b| - 1] == b[|b| - 1]
  {
  }

  /** A sequence is what comes before position i, the element at i, and what comes after. */
  lemma SplitAround<T>(s: seq<T>, i: nat)
    requires i < |s|
    ensures s == (s[..i] + [s[i]]) + s[i + 1..]
  {
  }

  /** Every month key is the seven-character prefix of the date of some dated application. */
  lemma {:induction false} MonthsComeFromDatedApps(apps: seq<Application>)
    ensures forall m :: m in Months(apps) ==>
      exists i :: 0 <= i < |apps| && IsDated(apps[i]) && m == MonthKey(apps[i].appliedDate.value)
  {
    if apps != [] {
      var n := |apps| - 1;
      MonthsComeFromDatedApps(apps[..n]);
      forall m | m in Months(apps)
        ensures exists i :: 0 <= i < |apps| && IsDated(apps[i]) && m == MonthKey(apps[i].appliedDate.value)
      {
        if m in Months(apps[..n]) {
          var i :| 0 <= i < n && IsDated(apps[..n][i]) && m == MonthKey(apps[..n][i].appliedDate.value);
          assert apps[..n][i] == apps[i];
        } else {
          assert IsDated(apps[n]) && m == MonthKey(apps[n].appliedDate.value);
        }
      }
    }
  }

  /** Every month of a dated application is counted. */
  lemma {:induction false} DatedAppsAreCounted(apps: seq<Application>, i: nat)
    requires i < |apps| && IsDated(apps[i])
    ensures MonthKey(apps[i].appliedDate.value) in MonthCounts(apps)
  {
    var n := |apps| - 1;
    if i < n {
      DatedAppsAreCounted(apps[..n], i);
      assert apps[..n][i] == apps[i];
    }
  }

  /** The sum of counts[k] over the keys in the list. */
  function SumCounts(keys: seq<string>, counts: map<string, nat>): nat
    requires forall k :: k in keys ==> k in counts
  {
    if keys == [] then 0 else counts[keys[0]] + SumCounts(keys[1..], counts)
  }

  /** Summing the multiplicities of a multiset over a list of its distinct elements gives its size. */
  lemma {:induction false} SumOfMultiplicities(keys: seq<string>, m: multiset<string>)
    requires Distinct(keys) && (forall k :: k in keys <==> k in m)
    ensures SumCounts(keys, CountsOf(m)) == |m|
  {
    if keys != [] {
      var k := keys[0];
      var rest := m[k := 0];
      assert m == rest + multiset{k}[k := m[k]];
      assert |m| == |rest| + m[k];
      forall x | x in keys[1..] ensures x != k {
        var j :| 0 <= j < |keys[1..]| && keys[1..][j] == x;
        assert keys[j + 1] == x;
      }
      SumOfMultiplicities(keys[1..], rest);
      SumCountsAgree(keys[1..], CountsOf(rest), CountsOf(m));
    }
  }

  lemma {:induction false} SumCountsAgree(keys: seq<string>, c1: map<string, nat>, c2: map<string, nat>)
    requires forall k :: k in keys ==> k in c1 && k in c2 && c1[k] == c2[k]
    ensures SumCounts(keys, c1) == SumCounts(keys, c2)
  {
    if keys != [] {
      SumCountsAgree(keys[1..], c1, c2);
    }
  }

  /** The monthly counts add up to the number of applications with an applied date. */
  lemma CountsSumToDatedApps(apps: seq<Application>, keys: seq<string>)
    requires Distinct(keys) && (forall k :: k in keys <==> k in MonthCounts(apps))
    ensures SumCounts(keys, MonthCounts(apps)) == DatedCount(apps)
  {
    SumOfMultiplicities(keys, multiset(Months(apps)));
    MonthsCountDated(apps);
  }

  /** Removing the application at position i and adding its month back gives the same months. */
  lemma MonthsWithout(apps: seq<Application>, i: nat)
    requires i < |apps|
    ensures multiset(Months(apps)) == multiset(Months(apps[..i] + apps[i + 1..])) + multiset(Months([apps[i]]))
  {
    var pre, x, post := apps[..i], [apps[i]], apps[i + 1..];
    assert Months(apps) == Months(pre) + Months(x) + Months(post) by {
      SplitAround(apps, i);
      MonthsAppend(pre + x, post);
      MonthsAppend(pre, x);
    }
    assert Months(pre + post) == Months(pre) + Months(post) by {
      MonthsAppend(pre, post);
    }
    MultisetMiddle(Months(pre), Months(x), Months(post));
  }

  /** Taking the middle part out of a sequence removes exactly its elements. */
  lemma MultisetMiddle(p: seq<string>, x: seq<string>, q: seq<string>)
    ensures multiset(p + x + q) == multiset(p + q) + multiset(x)
  {
    assert multiset(p + x + q) == multiset(p) + multiset(x) + multiset(q);
    assert multiset(p + q) == multiset(p) + multiset(q);
  }

  /** The same applications in any order have the same months, with the same multiplicities. */
  lemma {:induction false} MonthsOrderIndependent(a: seq<Application>, b: seq<Application>)
    requires multiset(a) == multiset(b)
    ensures multiset(Months(a)) == multiset(Months(b))
    decreases |b|
  {
    if b != [] {
      var n := |b| - 1;
      var i := RemoveMatching(a, b);
      MonthsOrderIndependent(a[..i] + a[i + 1..], b[..n]);
      MonthsWithout(a, i);
      assert b == b[..n] + [b[n]];
      MonthsAppend(b[..n], [b[n]]);
    }
  }

  /**
   * For two orderings of the same elements, the position in a of b's last
   * element; taking it out of a and off the end of b leaves two orderings of
   * the same elements again.
   */
  lemma RemoveMatching<T>(a: seq<T>, b: seq<T>) returns (i: nat)
    requires multiset(a) == multiset(b) && b != []
    ensures i < |a| && a[i] == b[|b| - 1]
    ensures multiset(a[..i] + a[i + 1..]) == multiset(b[..|b| - 1])
  {
    var n := |b| - 1;
    MultisetRemoveAt(b, n);
    assert b[n] in multiset(a);
    i :| 0 <= i < |a| && a[i] == b[n];
    MultisetRemoveAt(a, i);
  }

  /** Taking out the element at position i takes one occurrence of it out of the multiset. */
  lemma MultisetRemoveAt<T>(a: seq<T>, i: nat)
    requires i < |a|
    ensures multiset(a[..i] + a[i + 1..]) == multiset(a) - multiset{a[i]}
  {
    SplitAround(a, i);
    assert multiset(a) == multiset(a[..i]) + multiset{a[i]} + multiset(a[i + 1..]);
  }

  /** groupByMonth's result does not depend on the order of the applications. */
  lemma MonthCountsOrderIndependent(a: seq<Application>, b: seq<Application>)
    requires multiset(a) == multiset(b)
    ensures MonthCounts(a) == MonthCounts(b)
  {
    MonthsOrderIndependent(a, b);
  }

  /** a comes no later than b in lexicographic order (the default order of Array.prototype.sort). */
  predicate Below(a: string, b: string) {
    a == [] || (b != [] && (a[0] < b[0] || (a[0] == b[0] && Below(a[1..], b[1..]))))
  }

  lemma {:induction false} BelowTotal(a: string, b: string)
    ensures Below(a, b) || Below(b, a)
  {
    if a != [] && b != [] && a[0] == b[0] {
      BelowTotal(a[1..], b[1..]);
    }
  }

  lemma {:induction false} BelowAntisymmetric(a: string, b: string)
    requires Below(a, b) && Below(b, a)
    ensures a == b
  {
    if a != [] && b != [] {
      BelowAntisymmetric(a[1..], b[1..]);
      assert a == [a[0]] + a[1..] && b == [b[0]] + b[1..];
    }
  }

  lemma {:induction false} BelowTransitive(a: string, b: string, c: string)
    requires Below(a, b) && Below(b, c)
    ensures Below(a, c)
  {
    if a != [] && b != [] && c != [] && a[0] == b[0] && b[0] == c[0] {
      BelowTransitive(a[1..], b[1..], c[1..]);
    }
  }

  predicate SortedStrings(s: seq<string>) {
    forall i, j :: 0 <= i < j < |s| ==> Below(s[i], s[j])
  }

  /** x comes no later than any element of s. */
  predicate BelowAll(x: string, s: seq<string>) {
    forall j :: 0 <= j < |s| ==> Below(x, s[j])
  }

  /** Below the head of a sorted list is below all of it. */
  lemma BelowAllOfSorted(x: string, s: seq<string>)
    requires SortedStrings(s) && s != [] && Below(x, s[0])
    ensures BelowAll(x, s)
  {
    forall j | 0 <= j < |s| ensures Below(x, s[j]) {
      if j > 0 { BelowTransitive(x, s[0], s[j]); }
    }
  }

  /** BelowAll depends only on the elements, not on their order. */
  lemma BelowAllOfPermutation(x: string, s: seq<string>, t: seq<string>)
    requires BelowAll(x, s) && multiset(t) == multiset(s)
    ensures BelowAll(x, t)
  {
    forall j | 0 <= j < |t| ensures Below(x, t[j]) {
      assert t[j] in multiset(s);
      var i :| 0 <= i < |s| && s[i] == t[j];
    }
  }

  /** The head of a sorted list is below its tail, and below anything else it is below. */
  lemma BelowAllOfTailAnd(s: seq<string>, x: string)
    requires SortedStrings(s) && s != [] && Below(s[0], x)
    ensures BelowAll(s[0], s[1..] + [x])
  {
  }

  lemma SortedCons(x: string, s: seq<string>)
    requires SortedStrings(s) && BelowAll(x, s)
    ensures SortedStrings([x] + s)
  {
  }

  /** x placed into a sorted list before the first element it is below. */
  function Insert(x: string, s: seq<string>): (r: seq<string>)
    requires SortedStrings(s)
    ensures SortedStrings(r)
    ensures multiset(r) == multiset(s) + multiset{x}
  {
    if s == [] then [x]
    else if Below(x, s[0]) then
      BelowAllOfSorted(x, s);
      SortedCons(x, s);
      [x] + s
    else
      var rest := Insert(x, s[1..]);
      BelowTotal(x, s[0]);
      BelowAllOfTailAnd(s, x);
      BelowAllOfPermutation(s[0], s[1..] + [x], rest);
      SortedCons(s[0], rest);
      assert s == [s[0]] + s[1..];
      [s[0]] + rest
  }

  /** Object.keys(monthlyData).sort(): the keys in ascending lexicographic order. */
  function SortStrings(s: seq<string>): (r: seq<string>)
    ensures SortedStrings(r)
    ensures multiset(r) == multiset(s)
  {
    if s == [] then [] else
      assert s == [s[0]] + s[1..];
      Insert(s[0], SortStrings(s[1..]))
  }

  /** Sorting distinct month keys lists each key exactly once, in strictly increasing order. */
  lemma SortedMonthsStrictlyIncrease(keys: seq<string>)
    requires Distinct(keys)
    ensures var r := SortStrings(keys);
      && |r| == |keys|
      && (forall k :: k in r <==> k in keys)
      && forall i, j :: 0 <= i < j < |r| ==> Below(r[i], r[j]) && r[i] != r[j]
  {
    var r := SortStrings(keys);
    assert |r| == |multiset(r)| == |multiset(keys)| == |keys|;
    assert forall k :: k in r <==> k in multiset(r);
    forall i, j | 0 <= i < j < |r| ensures r[i] != r[j] {
      if r[i] == r[j] {
        DistinctOnce(keys, r[i]);
        RepeatedTwice(r, i, j);
      }
    }
  }

  lemma RepeatedTwice(r: seq<string>, i: nat, j: nat)
    requires i < j < |r| && r[i] == r[j]
    ensures multiset(r)[r[i]] >= 2
  {
    var pre, post := r[..j], r[j + 1..];
    assert r == pre + [r[j]] + post;
    assert r[i] == pre[i];
    assert multiset(r) == multiset(pre) + multiset{r[j]} + multiset(post);
  }

  lemma DistinctOnce(keys: seq<string>, k: string)
    requires Distinct(keys)
    ensures multiset(keys)[k] <= 1
  {
    if keys != [] {
      assert keys == [keys[0]] + keys[1..];
      DistinctOnce(keys[1..], k);
      if keys[0] == k {
        assert k !in keys[1..];
      }
    }
  }

  /** One bar of the monthly chart: a month key and its count (the locale label is not modelled). */
  datatype MonthPoint = MonthPoint(month: string, count: nat)

  /** monthlyPoints: the sorted months paired with their counts. */
  function MonthlyPoints(sortedMonths: seq<string>, counts: map<string, nat>): (r: seq<MonthPoint>)
    requires forall k :: k in sortedMonths ==> k in counts
    ensures |r| == |sortedMonths|
    ensures forall i :: 0 <= i < |r| ==> r[i] == MonthPoint(sortedMonths[i], counts[sortedMonths[i]])
  {
    seq(|sortedMonths|, i requires 0 <= i < |sortedMonths| => MonthPoint(sortedMonths[i], counts[sortedMonths[i]]))
  }

  /** maxMonthly: Math.max of all counts and 1. */
  function MaxMonthly(points: seq<MonthPoint>): (r: nat)
    ensures r >= 1
    ensures forall i :: 0 <= i < |points| ==> points[i].count <= r
    ensures r == 1 || exists i :: 0 <= i < |points| && points[i].count == r
  {
    if points == [] then 1
    else
      var rest := MaxMonthly(points[1..]);
      assert forall i :: 1 <= i < |points| ==> points[i] == points[1..][i - 1];
      if points[0].count > rest then points[0].count
      else
        assert rest != 1 ==> exists i :: 1 <= i < |points| && points[i].count == rest by {
          if rest != 1 {
            var i :| 0 <= i < |points[1..]| && points[1..][i].count == rest;
            assert points[i + 1].count == rest;
          }
        }
        rest
  }

  /** bestMonth: the reduce that keeps the current best and replaces it only by a strictly larger count. */
  function BestMonth(points: seq<MonthPoint>): (r: Option<MonthPoint>)
    ensures r.None? <==> points == []
    ensures r.Some? ==>
      exists i :: 0 <= i < |points| && points[i] == r.value
        && (forall j :: 0 <= j < |points| ==> points[j].count <= r.value.count)
        && (forall j :: 0 <= j < i ==> points[j].count < r.value.count)
  {
    if points == [] then None
    else
      var n := |points| - 1;
      var best := BestMonth(points[..n]);
      var current := points[n];
      if best.None? || current.count > best.value.count then
        assert forall j :: 0 <= j < n ==> points[j] == points[..n][j];
        Some(current)
      else
        var i :| 0 <= i < n && points[..n][i] == best.value
          && (forall j :: 0 <= j < n ==> points[..n][j].count <= best.value.count)
          && (forall j :: 0 <= j < i ==> points[..n][j].count < best.value.count);
        assert points[i] == best.value;
        assert forall j :: 0 <= j < n ==> points[j] == points[..n][j];
        best
  }

  /**
   * Over the chart of sorted months, the best month has the largest count,
   * and every other month with that count comes later in the order.
   */
  lemma BestMonthIsEarliestMaximal(sortedMonths: seq<string>, counts: map<string, nat>)
    requires forall k :: k in sortedMonths ==> k in counts
    requires forall i, j :: 0 <= i < j < |sortedMonths| ==> Below(sortedMonths[i], sortedMonths[j]) && sortedMonths[i] != sortedMonths[j]
    ensures var best := BestMonth(MonthlyPoints(sortedMonths, counts));
      && (best.None? <==> sortedMonths == [])
      && (best.Some? ==>
        && best.value.month in counts && best.value.count == counts[best.value.month]
        && (forall k :: k in sortedMonths ==> counts[k] <= best.value.count)
        && (forall k :: k in sortedMonths && counts[k] == best.value.count && k != best.value.month ==>
              Below(best.value.month, k)))
  {
    var points := MonthlyPoints(sortedMonths, counts);
    var best := BestMonth(points);
    if best.Some? {
      var i :| 0 <= i < |points| && points[i] == best.value
        && (forall j :: 0 <= j < |points| ==> points[j].count <= best.value.count)
        && (forall j :: 0 <= j < i ==> points[j].count < best.value.count);
      forall k | k in sortedMonths ensures counts[k] <= best.value.count {
        var j :| 0 <= j < |sortedMonths| && sortedMonths[j] == k;
        assert points[j].count == counts[k];
      }
      forall k | k in sortedMonths && counts[k] == best.value.count && k != best.value.month
        ensures Below(best.value.month, k)
      {
        var j :| 0 <= j < |sortedMonths| && sortedMonths[j] == k;
        assert points[j].count == counts[k];
        assert j != i;
      }
    }
  }
}
