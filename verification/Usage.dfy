/**
 The statistics of finished requests (`end_request` of requests.c, `stop_usage` of
 usage.c): a list of entries with a running mean kept in whole numbers.
 */
module Usage {

  /** One entry per host and path. */
  datatype Info = Info(host: string, path: string, time: nat, hits: nat)

  /** One call of `end_request`; a fresh usage record brings one hit. */
  datatype Call = Call(host: string, path: string, time: nat)

  predicate Matches(i: Info, c: Call) {
    i.host == c.host && i.path == c.path
  }

  /** The mean after one more sample, by the source's truncating division. */
  function NextMean(m: nat, n: nat, x: nat): nat {
    var total: nat := x + n * m;
    total / (n + 1)
  }

  /** The updated entry. */
  function Hit(i: Info, c: Call): Info {
    Info(i.host, i.path, NextMean(i.time, i.hits, c.time), i.hits + 1)
  }

  /** The list after a call: the first match is updated, else a new head is added. */
  function Ended(list: seq<Info>, c: Call): seq<Info> {
    var k := First(list, c, 0);
    if k < |list| then list[k := Hit(list[k], c)] else [Info(c.host, c.path, c.time, 1)] + list
  }

  function First(list: seq<Info>, c: Call, from: nat): (k: nat)
    requires from <= |list|
    ensures from <= k <= |list|
    ensures k < |list| ==> Matches(list[k], c)
    ensures forall j :: from <= j < k ==> !Matches(list[j], c)
    decreases |list| - from
  {
    if from == |list| || Matches(list[from], c) then from else First(list, c, from + 1)
  }

  class Statistics {
    var list: seq<Info>

    constructor ()
      ensures list == []
    {
      list := [];
    }

    /** `end_request` */
    method EndRequest(c: Call)
      modifies this
      ensures list == Ended(old(list), c)
    {
      var k := 0;
      while k < |list|
        invariant 0 <= k <= |list| && list == old(list)
        invariant First(list, c, 0) == First(list, c, k)
      {
        if list[k].host == c.host && list[k].path == c.path {
          var hits := list[k].hits + 1;
          list := list[k := Info(list[k].host, list[k].path, (c.time + (hits - 1) * list[k].time) / hits, hits)];
          return;
        }
        k := k + 1;
      }
      list := [Info(c.host, c.path, c.time, 1)] + list;
    }
  }

  // ----- All runs ------------------------------------------------------------------

  function Run(calls: seq<Call>): seq<Info> {
    if calls == [] then [] else Ended(Run(calls[..|calls| - 1]), calls[|calls| - 1])
  }

  /** The times of the calls for one host and path, in order. */
  function Times(calls: seq<Call>, host: string, path: string): seq<nat> {
    if calls == [] then []
    else
      var c := calls[|calls| - 1];
      Times(calls[..|calls| - 1], host, path) + if c.host == host && c.path == path then [c.time] else []
  }

  function Sum(xs: seq<nat>): nat {
    if xs == [] then 0 else Sum(xs[..|xs| - 1]) + xs[|xs| - 1]
  }

  function Hits(list: seq<Info>): nat {
    if list == [] then 0 else list[0].hits + Hits(list[1..])
  }

  ghost predicate Unique(list: seq<Info>) {
    forall a, b :: 0 <= a < b < |list| ==> list[a].host != list[b].host || list[a].path != list[b].path
  }

  predicate AtLeast(xs: seq<nat>, lo: nat) {
    forall x <- xs :: lo <= x
  }

  predicate AtMost(xs: seq<nat>, hi: nat) {
    forall x <- xs :: x <= hi
  }

  /** `s - n(n-1)/2 <= n*m <= s`: the `k`-th truncation loses at most `k - 1`. */
  predicate Close(m: nat, n: nat, s: nat) {
    2 * (s - n * m) <= n * (n - 1) && n * m <= s
  }

  /** What is known of the stored mean of some samples. */
  ghost predicate MeanOf(m: nat, xs: seq<nat>) {
    && Close(m, |xs|, Sum(xs))
    && (forall lo: nat :: AtLeast(xs, lo) ==> lo <= m)
    && (forall hi: nat :: AtMost(xs, hi) ==> m <= hi)
  }

  /** Every entry stands for the calls of its host and path. */
  ghost predicate Records(list: seq<Info>, calls: seq<Call>) {
    && Unique(list)
    && forall k :: 0 <= k < |list| ==>
         var xs := Times(calls, list[k].host, list[k].path);
         xs != [] && list[k].hits == |xs| && MeanOf(list[k].time, xs)
  }

  /** One step of the mean, in numbers: `n` samples of sum `s` so far. */
  lemma MeanArithmetic(n: nat, m: nat, x: nat, s: nat)
    requires n > 0 && Close(m, n, s)
    ensures Close(NextMean(m, n, x), n + 1, s + x)
  {
    var m' := NextMean(m, n, x);
    MeanDivision(n, m, x);
    hide NextMean;
    assert (n + 1) * n == n * (n - 1) + 2 * n;
  }

  lemma MeanDivision(n: nat, m: nat, x: nat)
    ensures var m' := NextMean(m, n, x); (n + 1) * m' <= x + n * m < (n + 1) * m' + (n + 1)
  {
    Division(x + n * m, n + 1);
  }

  lemma MeanAbove(n: nat, m: nat, x: nat, lo: nat)
    requires n > 0 && lo <= m && lo <= x
    ensures lo <= NextMean(m, n, x)
  {
    var m' := NextMean(m, n, x);
    MeanDivision(n, m, x);
    hide NextMean;
    Scale(n, lo, m);
    assert (n + 1) * lo == n * lo + lo;
    Below(n + 1, lo, m');
  }

  lemma MeanBelow(n: nat, m: nat, x: nat, hi: nat)
    requires n > 0 && m <= hi && x <= hi
    ensures NextMean(m, n, x) <= hi
  {
    var m' := NextMean(m, n, x);
    MeanDivision(n, m, x);
    hide NextMean;
    Scale(n, m, hi);
    assert (n + 1) * hi == n * hi + hi;
    Below(n + 1, m', hi);
  }

  lemma MeanStep(m: nat, xs: seq<nat>, x: nat)
    requires xs != [] && MeanOf(m, xs)
    ensures MeanOf(NextMean(m, |xs|, x), xs + [x])
  {
    var n, ys := |xs|, xs + [x];
    var m' := NextMean(m, n, x);
    assert ys[..|ys| - 1] == xs;
    assert Sum(ys) == Sum(xs) + x;
    hide Sum, AtLeast, AtMost, Close, NextMean;
    MeanArithmetic(n, m, x, Sum(xs));
    forall lo: nat | AtLeast(ys, lo) ensures lo <= m' {
      AtLeastInit(xs, x, lo);
      MeanAbove(n, m, x, lo);
    }
    forall hi: nat | AtMost(ys, hi) ensures m' <= hi {
      AtMostInit(xs, x, hi);
      MeanBelow(n, m, x, hi);
    }
  }

  lemma AtLeastInit(xs: seq<nat>, x: nat, lo: nat)
    requires AtLeast(xs + [x], lo)
    ensures AtLeast(xs, lo) && lo <= x
  {
    assert x in xs + [x] && forall y <- xs :: y in xs + [x];
  }

  lemma AtMostInit(xs: seq<nat>, x: nat, hi: nat)
    requires AtMost(xs + [x], hi)
    ensures AtMost(xs, hi) && x <= hi
  {
    assert x in xs + [x] && forall y <- xs :: y in xs + [x];
  }

  lemma Division(a: nat, n: nat)
    requires n > 0
    ensures n * (a / n) <= a < n * (a / n) + n
  {
  }

  lemma Scale(n: nat, a: nat, b: nat)
    requires a <= b
    ensures n * a <= n * b
  {
  }

  lemma Below(n: nat, a: nat, b: nat)
    requires n > 0 && n * a < n * b + n
    ensures a <= b
  {
    if a > b { Scale(n, b + 1, a); }
  }

  /** Some entry stands for the calls like `c`. */
  ghost predicate Listed(list: seq<Info>, c: Call) {
    exists k :: 0 <= k < |list| && Matches(list[k], c)
  }

  /** Every run: entries are unique, each counts the calls of its host and path, its
      mean is within the truncation bound and between the smallest and the largest
      sample, and the hits add up to the calls. */
  lemma {:induction false} RunRecords(calls: seq<Call>)
    ensures Records(Run(calls), calls) && Hits(Run(calls)) == |calls|
    ensures forall c <- calls :: Listed(Run(calls), c)
  {
    hide Records, Ended;
    if calls == [] {
      NoRecords();
    } else {
      var before, c := calls[..|calls| - 1], calls[|calls| - 1];
      RunRecords(before);
      EndedRecords(Run(before), before, c);
      assert calls == before + [c];
      forall d | d in calls ensures Listed(Run(calls), d) {
        assert d == c || d in before;
        EndedListed(Run(before), c, d);
      }
    }
  }

  lemma NoRecords()
    ensures Records([], [])
  {
  }

  lemma EndedListed(list: seq<Info>, c: Call, d: Call)
    ensures Listed(list, d) || d == c ==> Listed(Ended(list, c), d)
  {
    var i, list' := First(list, c, 0), Ended(list, c);
    var shift := if i < |list| then 0 else 1;
    if d == c {
      assert Matches(list'[if i < |list| then i else 0], d);
    } else if Listed(list, d) {
      var k :| 0 <= k < |list| && Matches(list[k], d);
      assert Matches(list'[k + shift], d);
    }
  }

  lemma {:induction false} HitsUpdate(list: seq<Info>, k: nat, i: Info)
    requires k < |list|
    ensures Hits(list[k := i]) + list[k].hits == Hits(list) + i.hits
  {
    if k > 0 {
      assert list[k := i][1..] == list[1..][k - 1 := i];
      HitsUpdate(list[1..], k - 1, i);
    } else {
      assert list[0 := i][1..] == list[1..];
    }
  }

  lemma EndedRecords(list: seq<Info>, before: seq<Call>, c: Call)
    requires Records(list, before) && Hits(list) == |before|
    requires forall d <- before :: Listed(list, d)
    ensures Records(Ended(list, c), before + [c]) && Hits(Ended(list, c)) == |before| + 1
  {
    hide MeanOf;
    var k := First(list, c, 0);
    if k < |list| {
      HitRecords(list, before, c, k);
      HitsUpdate(list, k, Hit(list[k], c));
    } else {
      NewRecords(list, before, c);
      assert Ended(list, c)[1..] == list;
    }
  }

  lemma TimesStep(before: seq<Call>, c: Call, host: string, path: string)
    ensures Times(before + [c], host, path)
         == if c.host == host && c.path == path then Times(before, host, path) + [c.time] else Times(before, host, path)
  {
    assert (before + [c])[..|before|] == before;
  }

  /** Another call for a listed host and path. */
  lemma HitRecords(list: seq<Info>, before: seq<Call>, c: Call, k: nat)
    requires Records(list, before) && k < |list| && Matches(list[k], c)
    ensures Records(list[k := Hit(list[k], c)], before + [c])
  {
    hide MeanOf, Times, NextMean;
    var list' := list[k := Hit(list[k], c)];
    MeanStep(list[k].time, Times(before, c.host, c.path), c.time);
    forall j | 0 <= j < |list'|
      ensures var xs := Times(before + [c], list'[j].host, list'[j].path);
              xs != [] && list'[j].hits == |xs| && MeanOf(list'[j].time, xs)
    {
      TimesStep(before, c, list'[j].host, list'[j].path);
      if j != k {
        assert list[j].host != list[k].host || list[j].path != list[k].path;
      }
    }
  }

  /** The first call for a host and path. */
  lemma NewRecords(list: seq<Info>, before: seq<Call>, c: Call)
    requires Records(list, before) && (forall j :: 0 <= j < |list| ==> !Matches(list[j], c))
    requires forall d <- before :: Listed(list, d)
    ensures Records([Info(c.host, c.path, c.time, 1)] + list, before + [c])
  {
    hide MeanOf, Times, NextMean;
    var list' := [Info(c.host, c.path, c.time, 1)] + list;
    NoTimes(before, c.host, c.path);
    OneSample(c.time);
    forall j | 0 <= j < |list'|
      ensures var xs := Times(before + [c], list'[j].host, list'[j].path);
              xs != [] && list'[j].hits == |xs| && MeanOf(list'[j].time, xs)
    {
      TimesStep(before, c, list'[j].host, list'[j].path);
      assert [] + [c.time] == [c.time];
      if j > 0 { assert !Matches(list[j - 1], c) && list'[j] == list[j - 1]; }
    }
  }

  lemma OneSample(x: nat)
    ensures MeanOf(x, [x])
  {
    assert [x][..0] == [] && Sum([x]) == x;
    assert x in [x];
  }

  lemma {:induction false} NoTimes(calls: seq<Call>, host: string, path: string)
    requires forall c <- calls :: c.host != host || c.path != path
    ensures Times(calls, host, path) == []
  {
    if calls == [] {
    } else {
      assert calls[|calls| - 1] in calls;
      assert forall c <- calls[..|calls| - 1] :: c in calls;
      NoTimes(calls[..|calls| - 1], host, path);
    }
  }
}
