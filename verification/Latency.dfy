/**
 One latency metric: the elapsed time of an event in unsigned 64-bit arithmetic, the running
 count, total, average, maximum and minimum that every callback keeps, and their merge over threads
 (demo/Linux/flowingSynthesizerDemo.cpp, demo/Linux/funAsrTranscriberDemo.cpp).
 */
module Latency {
  import opened Basics
  import opened DivMod

  // ---- Elapsed time ----

  const TWO_64: int := 0x1_0000_0000_0000_0000

  /** A `struct timeval`. */
  datatype Timeval = Timeval(sec: int, usec: int)

  /** Conversion to `unsigned long long`. */
  function U64(x: int): (r: nat)
    ensures r < 0x1_0000_0000_0000_0000
    ensures 0 <= x < 0x1_0000_0000_0000_0000 ==> r == x
  {
    x % TWO_64
  }

  function Us(tv: Timeval): int {
    tv.sec * 1_000_000 + tv.usec
  }

  /** The computation of the started, first-packet and closed callbacks; `timeValue2` may wrap. */
  function ElapsedMs(start: Timeval, end: Timeval): nat {
    var timeValue1 := U64(end.sec - start.sec);
    var timeValue2 := U64(end.usec - start.usec);
    if timeValue1 > 0 then U64(U64(timeValue1 * 1_000_000) + timeValue2) / 1000 else timeValue2 / 1000
  }

  /** The computation of the completed callback. */
  function DirectElapsedMs(start: Timeval, end: Timeval): nat {
    U64(U64(Us(end)) - U64(Us(start))) / 1000
  }

  /** Both computations are the true difference modulo 2^64, whatever the two times are. */
  lemma ElapsedModulo(start: Timeval, end: Timeval)
    ensures ElapsedMs(start, end) == U64(Us(end) - Us(start)) / 1000 == DirectElapsedMs(start, end)
  {
    var d, u := end.sec - start.sec, end.usec - start.usec;
    assert Us(end) - Us(start) == d * 1_000_000 + u;
    assert U64(U64(U64(d) * 1_000_000) + U64(u)) == U64(d * 1_000_000 + u) by {
      var k1, k2 := d / TWO_64, u / TWO_64;
      assert d == k1 * TWO_64 + U64(d) && u == k2 * TWO_64 + U64(u);
      var k3 := U64(d) * 1_000_000 / TWO_64;
      assert U64(d) * 1_000_000 == k3 * TWO_64 + U64(U64(d) * 1_000_000);
      WrapEqual(U64(U64(d) * 1_000_000) + U64(u), d * 1_000_000 + u, k1 * 1_000_000 + k2 + k3);
    }
    assert U64(U64(Us(end)) - U64(Us(start))) == U64(Us(end) - Us(start)) by {
      var k1, k2 := Us(end) / TWO_64, Us(start) / TWO_64;
      WrapEqual(U64(Us(end)) - U64(Us(start)), Us(end) - Us(start), k1 - k2);
    }
    if U64(d) == 0 {
      var k1 := d / TWO_64;
      WrapEqual(u, d * 1_000_000 + u, k1 * 1_000_000);
    }
  }

  lemma WrapEqual(a: int, b: int, k: int)
    requires b == a + k * TWO_64
    ensures U64(a) == U64(b)
  {
    var q, r := a / TWO_64, a % TWO_64;
    assert b == (q + k) * TWO_64 + r;
  }

  /**
   The result is the elapsed time in whole milliseconds exactly when the clock has not stepped back
   and the difference in microseconds fits 64 bits.
   */
  lemma ElapsedExactly(start: Timeval, end: Timeval)
    ensures var us := (end.sec - start.sec) * 1_000_000 + end.usec - start.usec;
            ElapsedMs(start, end) == us / 1000 <==> 0 <= us < 0x1_0000_0000_0000_0000
  {
    ElapsedModulo(start, end);
  }

  // ---- One thread ----

  datatype Metric = Metric(consumed: nat, total: nat, ave: nat, max: nat, min: nat)

  const ZERO: Metric := Metric(0, 0, 0, 0, 0)

  /** The minimum with 0 for "nothing seen yet". */
  function MinStep(min: nat, v: nat): nat {
    if min == 0 then v else if v < min then v else min
  }

  function MaxStep(max: nat, v: nat): nat {
    if v > max then v else max
  }

  /** What a callback does to its metric. */
  function Observe(m: Metric, v: nat): Metric {
    var consumed, total := m.consumed + 1, U64(m.total + v);
    Metric(consumed, total, if consumed > 0 then total / consumed else m.ave, MaxStep(m.max, v), MinStep(m.min, v))
  }

  function Max(s: seq<nat>): nat {
    if s == [] then 0 else var m := Max(s[1..]); if s[0] > m then s[0] else m
  }

  function Min(s: seq<nat>): nat
    requires s != []
  {
    if |s| == 1 then s[0] else var m := Min(s[1..]); if s[0] < m then s[0] else m
  }

  lemma {:induction false} MaxMeans(s: seq<nat>)
    ensures forall x | x in s :: x <= Max(s)
    ensures s != [] ==> Max(s) in s
  {
    if s == [] {
    } else {
      MaxMeans(s[1..]);
      assert forall x | x in s :: x == s[0] || x in s[1..];
    }
  }

  lemma {:induction false} MinMeans(s: seq<nat>)
    requires s != []
    ensures Min(s) in s && forall x | x in s :: Min(s) <= x
  {
    if |s| == 1 {
    } else {
      MinMeans(s[1..]);
      assert forall x | x in s :: x == s[0] || x in s[1..];
    }
  }

  /** The samples after the last zero sample. */
  function AfterLastZero(s: seq<nat>): (r: seq<nat>)
    ensures |r| <= |s| && r == s[|s| - |r|..] && 0 !in r
    ensures |r| < |s| ==> s[|s| - |r| - 1] == 0
  {
    if s == [] || s[|s| - 1] == 0 then [] else AfterLastZero(s[..|s| - 1]) + [s[|s| - 1]]
  }

  function MinAfterZero(s: seq<nat>): nat {
    var r := AfterLastZero(s);
    if r == [] then 0 else Min(r)
  }

  /** The metric of a sequence of samples, by what its fields mean. */
  function MetricOf(s: seq<nat>): Metric {
    Metric(|s|, U64(Sum(s)), if s == [] then 0 else U64(Sum(s)) / |s|, Max(s), MinAfterZero(s))
  }

  /** The mean without its fraction. */
  lemma MeanMeans(s: seq<nat>)
    ensures var m := MetricOf(s);
            && m.consumed == |s|
            && (Sum(s) < 0x1_0000_0000_0000_0000 ==> m.total == Sum(s))
            && m.ave * |s| <= m.total
            && (s != [] ==> m.total < (m.ave + 1) * |s|)
  {
    hide Max, MinAfterZero;
    var total := U64(Sum(s));
    assert Sum(s) < 0x1_0000_0000_0000_0000 ==> total == Sum(s);
    if s != [] {
      hide U64, Sum;
      var q, r := DivideByHand(total, |s|);
      Distribute(q, 1, |s|);
    }
  }

  /** The largest sample, and the smallest one as long as none is zero. */
  lemma ExtremesMean(s: seq<nat>)
    requires s != []
    ensures MetricOf(s).max in s && forall x | x in s :: x <= MetricOf(s).max
    ensures 0 !in s ==> MetricOf(s).min in s && forall x | x in s :: MetricOf(s).min <= x
  {
    hide Sum, Max, Min, AfterLastZero;
    MaxMeans(s);
    if 0 !in s {
      NoZero(s);
      MinMeans(s);
    }
  }

  lemma MaxAppend(a: seq<nat>, b: seq<nat>)
    ensures Max(a + b) == MaxStep(Max(a), Max(b))
  {
    MaxMeans(a);
    MaxMeans(b);
    MaxMeans(a + b);
    assert forall x :: x in a + b <==> x in a || x in b;
    if a + b == [] { assert a == [] && b == []; }
  }

  lemma MaxSingle(v: nat)
    ensures Max([v]) == v
  {
    assert [v][1..] == [];
  }

  lemma {:induction false} MinSnoc(s: seq<nat>, v: nat)
    requires s != []
    ensures Min(s + [v]) == if v < Min(s) then v else Min(s)
  {
    assert (s + [v])[1..] == s[1..] + [v];
    if |s| > 1 {
      MinSnoc(s[1..], v);
    } else {
      assert (s + [v])[1..] == [v];
    }
  }

  lemma MinAfterZeroSnoc(s: seq<nat>, v: nat)
    ensures MinAfterZero(s + [v]) == MinStep(MinAfterZero(s), v)
  {
    assert (s + [v])[..|s|] == s;
    var r := AfterLastZero(s);
    if v != 0 {
      assert AfterLastZero(s + [v]) == r + [v];
      if r != [] {
        MinMeans(r);
        MinSnoc(r, v);
      }
    }
  }

  /** The running update keeps the metric exact. */
  lemma ObserveIsMetric(s: seq<nat>, v: nat)
    ensures Observe(MetricOf(s), v) == MetricOf(s + [v])
  {
    hide Sum, Max, MinAfterZero;
    SumSnoc(s, v);
    WrapEqual(U64(Sum(s)) + v, Sum(s) + v, Sum(s) / TWO_64);
    MaxAppend(s, [v]);
    MaxSingle(v);
    MinAfterZeroSnoc(s, v);
  }

  /** The recorded minimum is the minimum exactly when no sample is zero or the last one is. */
  lemma MinExactly(s: seq<nat>)
    requires s != []
    ensures MinAfterZero(s) == Min(s) <==> 0 !in s || s[|s| - 1] == 0
  {
    MinMeans(s);
    var r := AfterLastZero(s);
    if 0 !in s {
      assert r == s;
    } else {
      assert Min(s) == 0;
      if r != [] { MinMeans(r); }
    }
  }

  // ---- All threads ----

  datatype Merged = Merged(count: nat, max: nat, min: nat, ave: nat)

  function MergeStep(g: Merged, m: Metric): Merged {
    Merged(g.count + m.consumed, MaxStep(g.max, m.max), MinStep(g.min, m.min), g.ave + m.ave)
  }

  function ThreadMins(ts: seq<seq<nat>>): (r: seq<nat>)
    ensures |r| == |ts| && forall i | 0 <= i < |ts| :: r[i] == MetricOf(ts[i]).min
  {
    if ts == [] then [] else [MetricOf(ts[0]).min] + ThreadMins(ts[1..])
  }

  function ThreadAves(ts: seq<seq<nat>>): (r: seq<nat>)
    ensures |r| == |ts| && forall i | 0 <= i < |ts| :: r[i] == MetricOf(ts[i]).ave
  {
    if ts == [] then [] else [MetricOf(ts[0]).ave] + ThreadAves(ts[1..])
  }

  /** The totals of the merge loop, by what they mean for all samples pooled. */
  function MergedOf(ts: seq<seq<nat>>): Merged {
    Merged(|Flatten(ts)|, Max(Flatten(ts)), MinAfterZero(ThreadMins(ts)), Sum(ThreadAves(ts)))
  }

  lemma FlattenSingle(t: seq<nat>)
    ensures Flatten([t]) == t
  {
    assert [t][1..] == [];
  }

  lemma MergeStepIsMerged(ts: seq<seq<nat>>, t: seq<nat>)
    ensures MergeStep(MergedOf(ts), MetricOf(t)) == MergedOf(ts + [t])
  {
    hide U64, Sum, Max, MinAfterZero, Flatten, ThreadMins, ThreadAves;
    FlattenAppend(ts, [t]);
    FlattenSingle(t);
    MaxAppend(Flatten(ts), t);
    assert ThreadMins(ts + [t]) == ThreadMins(ts) + [MetricOf(t).min];
    MinAfterZeroSnoc(ThreadMins(ts), MetricOf(t).min);
    assert ThreadAves(ts + [t]) == ThreadAves(ts) + [MetricOf(t).ave];
    SumSnoc(ThreadAves(ts), MetricOf(t).ave);
  }

  // ---- The merged minimum and average ----

  /** The recorded minimum of a thread is 0: it saw no event, or its last sample is zero. */
  predicate Resets(t: seq<nat>) {
    t == [] || t[|t| - 1] == 0
  }

  /**
   What the merged minimum is the minimum of: of the threads after the last one with recorded
   minimum 0, the samples after the last zero sample.
   */
  function LateSamples(ts: seq<seq<nat>>): (r: seq<seq<nat>>)
    ensures forall t | t in r :: t != [] && 0 !in t
  {
    if ts == [] || Resets(ts[|ts| - 1]) then []
    else LateSamples(ts[..|ts| - 1]) + [AfterLastZero(ts[|ts| - 1])]
  }

  /** The threads after the last one that saw no event. */
  function AfterLastEmpty(ts: seq<seq<nat>>): (r: seq<seq<nat>>)
    ensures |r| <= |ts| && r == ts[|ts| - |r|..] && [] !in r
    ensures |r| < |ts| ==> ts[|ts| - |r| - 1] == []
  {
    if ts == [] || ts[|ts| - 1] == [] then [] else AfterLastEmpty(ts[..|ts| - 1]) + [ts[|ts| - 1]]
  }

  lemma {:induction false} FlattenMember(ts: seq<seq<nat>>, x: nat)
    ensures x in Flatten(ts) <==> exists i :: 0 <= i < |ts| && x in ts[i]
  {
    if ts == [] {
    } else {
      FlattenMember(ts[1..], x);
      if exists i :: 0 <= i < |ts| && x in ts[i] {
        var i :| 0 <= i < |ts| && x in ts[i];
        assert i > 0 ==> x in ts[1..][i - 1];
      }
      if i :| 0 <= i < |ts[1..]| && x in ts[1..][i] {
        assert x in ts[i + 1];
      }
    }
  }

  lemma NoZero(t: seq<nat>)
    requires 0 !in t
    ensures AfterLastZero(t) == t
  {}

  lemma PositiveMin(t: seq<nat>)
    requires 0 !in t && t != []
    ensures MinAfterZero(t) == Min(t)
    ensures Min(t) > 0
  {
    NoZero(t);
    MinNotZero(t);
  }

  lemma MinNotZero(t: seq<nat>)
    requires 0 !in t && t != []
    ensures Min(t) > 0
  {
    hide Min;
    MinMeans(t);
  }

  /** The recorded minimum of a thread. */
  lemma MetricMin(t: seq<nat>)
    ensures MetricOf(t).min == 0 <==> Resets(t)
    ensures !Resets(t) ==> AfterLastZero(t) != [] && MetricOf(t).min == MetricOf(AfterLastZero(t)).min
  {
    var r := AfterLastZero(t);
    assert r == [] <==> Resets(t);
    hide AfterLastZero, Min, Max, Sum;
    if r != [] { PositiveMin(r); }
  }

  lemma ThreadMinsSnoc(ts: seq<seq<nat>>, t: seq<nat>)
    ensures ThreadMins(ts + [t]) == ThreadMins(ts) + [MetricOf(t).min]
  {
    hide ThreadMins, MetricOf;
  }

  lemma AfterLastZeroSnoc(s: seq<nat>, v: nat)
    ensures AfterLastZero(s + [v]) == if v == 0 then [] else AfterLastZero(s) + [v]
  {
    assert (s + [v])[..|s|] == s;
  }

  lemma LateSamplesSnoc(ts: seq<seq<nat>>, t: seq<nat>)
    ensures LateSamples(ts + [t]) == if Resets(t) then [] else LateSamples(ts) + [AfterLastZero(t)]
  {
    hide AfterLastZero;
    assert (ts + [t])[..|ts|] == ts;
  }

  lemma EmptyMins()
    ensures AfterLastZero([]) == [] && ThreadMins([]) == [] && LateSamples([]) == []
  {}

  lemma {:induction false} MinsAfterZero(ts: seq<seq<nat>>)
    ensures AfterLastZero(ThreadMins(ts)) == ThreadMins(LateSamples(ts))
  {
    hide *;
    if ts == [] {
      EmptyMins();
    } else {
      var n := |ts| - 1;
      var init, t := ts[..n], ts[n];
      assert ts == init + [t];
      MetricMin(t);
      ThreadMinsSnoc(init, t);
      AfterLastZeroSnoc(ThreadMins(init), MetricOf(t).min);
      LateSamplesSnoc(init, t);
      MinsAfterZero(init);
      ThreadMinsSnoc(LateSamples(init), AfterLastZero(t));
      EmptyMins();
    }
  }

  lemma MinOfMins(ts: seq<seq<nat>>)
    requires ts != [] && forall t | t in ts :: t != [] && 0 !in t
    ensures Flatten(ts) != [] && Min(ThreadMins(ts)) == Min(Flatten(ts)) > 0
  {
    hide MinAfterZero, Flatten, ThreadMins;
    var mins, pool := ThreadMins(ts), Flatten(ts);
    assert ts[0] in ts;
    FlattenMember(ts, ts[0][0]);
    MinMeans(mins);
    MinMeans(pool);
    FlattenMember(ts, Min(pool));
    var i :| 0 <= i < |ts| && Min(pool) in ts[i];
    PositiveMin(ts[i]);
    MinMeans(ts[i]);
    assert mins[i] in mins;
    var j :| 0 <= j < |mins| && mins[j] == Min(mins);
    assert ts[j] in ts;
    PositiveMin(ts[j]);
    MinMeans(ts[j]);
    FlattenMember(ts, mins[j]);
  }

  /** The merged minimum, whatever the samples and threads. */
  lemma MergedMinExactly(ts: seq<seq<nat>>)
    ensures var late := Flatten(LateSamples(ts));
            MergedOf(ts).min == if LateSamples(ts) == [] then 0 else Min(late)
    ensures LateSamples(ts) != [] ==> Flatten(LateSamples(ts)) != [] && MergedOf(ts).min > 0
  {
    hide LateSamples, Flatten, Min, Max;
    MinsAfterZero(ts);
    if LateSamples(ts) != [] {
      MinOfMins(LateSamples(ts));
    }
  }

  lemma {:induction false} LateOfPositive(ts: seq<seq<nat>>)
    requires forall t | t in ts :: 0 !in t
    ensures LateSamples(ts) == AfterLastEmpty(ts)
  {
    if ts == [] {
    } else {
      var t := ts[|ts| - 1];
      assert t in ts && AfterLastZero(t) == t;
      LateOfPositive(ts[..|ts| - 1]);
    }
  }

  lemma NoLateSamples(ts: seq<seq<nat>>)
    requires ts != []
    ensures LateSamples(ts) == [] <==> Resets(ts[|ts| - 1])
  {}

  /**
   The merged minimum is the minimum of all samples pooled exactly when: there is a zero sample and
   the last thread is empty or ends in zero; or there is none, and the smallest sample belongs to
   a thread after the last empty one.
   */
  lemma MergedMinIsPooledExactly(ts: seq<seq<nat>>)
    requires ts != [] && Flatten(ts) != []
    ensures MergedOf(ts).min == Min(Flatten(ts)) <==>
            if 0 in Flatten(ts) then Resets(ts[|ts| - 1])
            else Min(Flatten(ts)) in Flatten(AfterLastEmpty(ts))
  {
    hide MergedOf, LateSamples, AfterLastEmpty, Flatten, Min;
    var pool := Flatten(ts);
    MergedMinExactly(ts);
    MinMeans(pool);
    NoLateSamples(ts);
    if 0 !in pool {
      PositiveThreads(ts);
      LateOfPositive(ts);
      LateMin(ts);
    }
  }

  lemma PositiveThreads(ts: seq<seq<nat>>)
    ensures 0 !in Flatten(ts) <==> forall t | t in ts :: 0 !in t
  {
    FlattenMember(ts, 0);
    assert forall i | 0 <= i < |ts| :: ts[i] in ts;
  }

  /** Without zero samples the merged minimum comes from the pool exactly if the pooled one is late. */
  lemma LateMin(ts: seq<seq<nat>>)
    requires Flatten(ts) != [] && forall t | t in ts :: 0 !in t
    ensures MergedOf(ts).min == Min(Flatten(ts)) <==> Min(Flatten(ts)) in Flatten(AfterLastEmpty(ts))
  {
    hide MergedOf, LateSamples, AfterLastEmpty, Flatten, Min;
    LateOfPositive(ts);
    MergedMinExactly(ts);
    var pool, late := Flatten(ts), Flatten(AfterLastEmpty(ts));
    MinMeans(pool);
    PositiveThreads(ts);
    if AfterLastEmpty(ts) == [] {
      FlattenMember([], Min(pool));
    } else {
      MinOfMins(AfterLastEmpty(ts));
      MinMeans(late);
      LateIsPooled(ts, Min(late));
    }
  }

  lemma LateIsPooled(ts: seq<seq<nat>>, x: nat)
    requires x in Flatten(AfterLastEmpty(ts))
    ensures x in Flatten(ts)
  {
    var late := AfterLastEmpty(ts);
    FlattenMember(late, x);
    var i :| 0 <= i < |late| && x in late[i];
    assert ts[|ts| - |late| + i] == late[i];
    FlattenMember(ts, x);
  }

  /** In particular it is when all samples are positive and no thread is empty. */
  lemma MergedMinIsPooled(ts: seq<seq<nat>>)
    requires ts != [] && forall t | t in ts :: t != [] && 0 !in t
    ensures Flatten(ts) != [] && MergedOf(ts).min == Min(Flatten(ts))
  {
    hide MergedOf, Flatten, Min;
    MinOfMins(ts);
    PositiveThreads(ts);
    MinMeans(Flatten(ts));
    AllLate(ts);
    MergedMinIsPooledExactly(ts);
  }

  lemma {:induction false} AllLate(ts: seq<seq<nat>>)
    requires [] !in ts
    ensures AfterLastEmpty(ts) == ts
  {
    if ts == [] {
    } else {
      assert ts[|ts| - 1] in ts;
      AllLate(ts[..|ts| - 1]);
    }
  }

  /** One thread without an event, listed last, hides the minimum of all the others. */
  lemma EmptyThreadHidesMin()
    ensures MergedOf([[5], []]).min == 0 && Min(Flatten([[5], []])) == 5
  {
    var ts: seq<seq<nat>> := [[5], []];
    MergedMinExactly(ts);
    NoLateSamples(ts);
    assert ts[1..] == [[]] && ts[1..][1..] == [];
    assert Flatten(ts) == [5];
  }

  lemma {:induction false} SumBounds(s: seq<nat>, lo: nat, hi: nat)
    requires forall x | x in s :: lo <= x <= hi
    ensures |s| * lo <= Sum(s) <= |s| * hi
  {
    if s == [] {
    } else {
      assert forall x | x in s[1..] :: x in s;
      SumBounds(s[1..], lo, hi);
      Distribute(|s[1..]|, 1, lo);
      Distribute(|s[1..]|, 1, hi);
      assert s[0] in s && |s| == |s[1..]| + 1;
    }
  }

  /** A mean lies between any bounds of what it is the mean of. */
  lemma MeanBounds(s: seq<nat>, lo: nat, hi: nat)
    requires s != [] && forall x | x in s :: lo <= x <= hi
    ensures lo <= Sum(s) / |s| <= hi
  {
    SumBounds(s, lo, hi);
    MulMonotone(|s|, |s|, lo);
    QuotientBetween(Sum(s), |s|, lo, hi);
  }

  lemma QuotientBetween(n: nat, m: nat, lo: nat, hi: nat)
    requires m > 0 && m * lo <= n <= m * hi
    ensures lo <= n / m <= hi
  {
    DivAbove(n, lo, m);
    Distribute(hi, 1, m);
    DivBelow(n, hi + 1, m);
  }

  lemma MergedAve(ts: seq<seq<nat>>)
    ensures MergedOf(ts).ave == Sum(ThreadAves(ts))
    ensures MergedOf(ts).max == Max(Flatten(ts))
  {}

  lemma WrappedMean(n: nat, m: nat, hi: nat)
    requires m > 0 && n <= m * hi
    ensures U64(n) / m <= hi
  {
    assert U64(n) <= n;
    hide U64;
    QuotientBetween(U64(n), m, 0, hi);
  }

  lemma AveBelow(t: seq<nat>, hi: nat)
    requires forall x | x in t :: x <= hi
    ensures MetricOf(t).ave <= hi
  {
    hide U64, Sum, Max, MinAfterZero;
    if t != [] {
      SumBounds(t, 0, hi);
      WrappedMean(Sum(t), |t|, hi);
    }
  }

  lemma AveAbove(t: seq<nat>, lo: nat)
    requires t != [] && Sum(t) < TWO_64 && forall x | x in t :: lo <= x
    ensures lo <= MetricOf(t).ave
  {
    assert U64(Sum(t)) == Sum(t);
    hide U64, Sum, Max, MinAfterZero;
    MeanAbove(t, lo);
  }

  /** A thread's average is at most the merged maximum, also when its total has wrapped around. */
  lemma ThreadAveBelowMax(ts: seq<seq<nat>>, i: nat)
    requires i < |ts|
    ensures MetricOf(ts[i]).ave <= MergedOf(ts).max
  {
    hide MetricOf, Max, Flatten, ThreadAves, MergedOf;
    MergedAve(ts);
    forall x | x in ts[i]
      ensures x <= MergedOf(ts).max
    {
      FlattenMember(ts, x);
      MaxMeans(Flatten(ts));
    }
    AveBelow(ts[i], MergedOf(ts).max);
  }

  /** The merged average is a mean of means, and at most the merged maximum for all samples and threads. */
  lemma MergedAveBelowMax(ts: seq<seq<nat>>)
    requires ts != []
    ensures MergedOf(ts).ave / |ts| <= MergedOf(ts).max
  {
    hide Sum, Max, Flatten, ThreadAves, MetricOf, MergedOf;
    var hi := MergedOf(ts).max;
    var aves := ThreadAves(ts);
    forall a | a in aves
      ensures 0 <= a <= hi
    {
      var i :| 0 <= i < |ts| && aves[i] == a;
      ThreadAveBelowMax(ts, i);
    }
    MeanBounds(aves, 0, hi);
    MergedAve(ts);
  }

  /** The merged minimum is at most the average when all samples are positive and no thread is empty. */
  lemma MergedMinBelowAve(ts: seq<seq<nat>>)
    requires ts != [] && forall t | t in ts :: t != [] && 0 !in t && Sum(t) < TWO_64
    ensures MergedOf(ts).min <= MergedOf(ts).ave / |ts|
  {
    hide Sum, Max, Flatten, ThreadAves, MetricOf, MergedOf;
    var lo := MergedOf(ts).min;
    var aves := ThreadAves(ts);
    forall a | a in aves
      ensures lo <= a <= a
    {
      var i :| 0 <= i < |ts| && aves[i] == a;
      ThreadAveAboveMin(ts, i);
    }
    MeanAbove(aves, lo);
    MergedAve(ts);
  }

  lemma MeanAbove(s: seq<nat>, lo: nat)
    requires s != [] && forall x | x in s :: lo <= x
    ensures lo <= Sum(s) / |s|
  {
    MaxMeans(s);
    MeanBounds(s, lo, Max(s));
  }

  lemma ThreadAveAboveMin(ts: seq<seq<nat>>, i: nat)
    requires i < |ts| && Sum(ts[i]) < TWO_64
    requires forall t | t in ts :: t != [] && 0 !in t
    ensures MergedOf(ts).min <= MetricOf(ts[i]).ave
  {
    hide MetricOf, Sum, Min, Flatten, ThreadAves, MergedOf;
    MergedMinIsPooled(ts);
    MinMeans(Flatten(ts));
    assert ts[i] in ts;
    forall x | x in ts[i]
      ensures MergedOf(ts).min <= x
    {
      FlattenMember(ts, x);
    }
    AveAbove(ts[i], MergedOf(ts).min);
  }

  lemma NothingMerged()
    ensures MetricOf([]) == ZERO && MergedOf([]) == Merged(0, 0, 0, 0)
  {}

  // ---- When the merged minimum is at most the merged average ----

  /** The same numbers of samples, and zero samples in the same places. */
  ghost predicate SameZeros(ts: seq<seq<nat>>, us: seq<seq<nat>>) {
    && |us| == |ts|
    && (forall i | 0 <= i < |ts| :: |us[i]| == |ts[i]|)
    && (forall i, j | 0 <= i < |ts| && 0 <= j < |ts[i]| :: us[i][j] == 0 <==> ts[i][j] == 0)
  }

  ghost predicate NoOverflow(ts: seq<seq<nat>>) {
    forall i | 0 <= i < |ts| :: Sum(ts[i]) < TWO_64
  }

  predicate AllPositive(ts: seq<seq<nat>>) {
    forall t | t in ts :: t != [] && 0 !in t
  }

  /** Every positive sample replaced by 1. */
  function OnesOf(t: seq<nat>): (u: seq<nat>)
    ensures |u| == |t| && forall j | 0 <= j < |t| :: u[j] == if t[j] == 0 then 0 else 1
  {
    seq(|t|, j requires 0 <= j < |t| => if t[j] == 0 then 0 else 1)
  }

  function Ones(ts: seq<seq<nat>>): (us: seq<seq<nat>>)
    ensures |us| == |ts| && forall i | 0 <= i < |ts| :: us[i] == OnesOf(ts[i])
  {
    seq(|ts|, i requires 0 <= i < |ts| => OnesOf(ts[i]))
  }

  /** Samples of at most 1 add up to at most their number, and to less if one is zero. */
  lemma {:induction false} SumOfBits(s: seq<nat>)
    requires forall x | x in s :: x <= 1
    ensures Sum(s) <= |s| && (0 in s ==> Sum(s) < |s|)
  {
    if s == [] {
    } else {
      assert s[0] in s;
      assert forall x | x in s[1..] :: x in s;
      SumOfBits(s[1..]);
      assert 0 in s ==> s[0] == 0 || 0 in s[1..];
    }
  }

  lemma OnesAve(t: seq<nat>)
    requires |t| < TWO_64
    ensures Sum(OnesOf(t)) < TWO_64 && MetricOf(OnesOf(t)).ave <= 1
    ensures t == [] || 0 in t ==> MetricOf(OnesOf(t)).ave == 0
  {
    hide Max, MinAfterZero;
    var u := OnesOf(t);
    SumOfBits(u);
    if j :| 0 <= j < |t| && t[j] == 0 { assert u[j] in u; }
    if t != [] {
      hide Sum;
      BitMean(Sum(u), |u|);
    }
  }

  lemma BitMean(n: nat, m: nat)
    requires 0 < m < TWO_64 && n <= m
    ensures U64(n) / m <= 1 && (n < m ==> U64(n) / m == 0)
  {
    if n < m { SmallMod(n, m); } else { DivModUnique(n, m, 1, 0); }
  }

  lemma OnesShape(ts: seq<seq<nat>>)
    requires ts != [] && forall t | t in ts :: |t| < TWO_64
    ensures SameZeros(ts, Ones(ts)) && NoOverflow(Ones(ts))
    ensures Resets(Ones(ts)[|ts| - 1]) == Resets(ts[|ts| - 1])
  {
    hide MetricOf, Sum;
    forall i | 0 <= i < |ts|
      ensures Sum(OnesOf(ts[i])) < TWO_64
    {
      assert ts[i] in ts;
      OnesAve(ts[i]);
    }
  }

  lemma OnesAves(ts: seq<seq<nat>>)
    requires (forall t | t in ts :: |t| < TWO_64) && !AllPositive(ts)
    ensures Sum(ThreadAves(Ones(ts))) < |ts|
  {
    hide MetricOf, Sum, ThreadAves, Ones, OnesOf;
    var aves := ThreadAves(Ones(ts));
    forall i | 0 <= i < |ts|
      ensures aves[i] <= 1
      ensures ts[i] == [] || 0 in ts[i] ==> aves[i] == 0
    {
      assert ts[i] in ts;
      OnesAve(ts[i]);
    }
    var t :| t in ts && (t == [] || 0 in t);
    var i :| 0 <= i < |ts| && ts[i] == t;
    assert aves[i] in aves;
    SumOfBits(aves);
  }

  /** A thread without events or with a zero sample, and no reset at the end: then the minimum exceeds the average. */
  lemma OnesAboveAve(ts: seq<seq<nat>>)
    requires ts != [] && (forall t | t in ts :: |t| < TWO_64)
    requires !Resets(ts[|ts| - 1]) && !AllPositive(ts)
    ensures SameZeros(ts, Ones(ts)) && NoOverflow(Ones(ts))
    ensures MergedOf(Ones(ts)).min > 0 && MergedOf(Ones(ts)).ave / |ts| == 0
  {
    hide *;
    OnesShape(ts);
    OnesAves(ts);
    MeanBelowOne(Ones(ts));
    MinNotReset(Ones(ts));
  }

  lemma MeanBelowOne(us: seq<seq<nat>>)
    requires us != [] && Sum(ThreadAves(us)) < |us|
    ensures MergedOf(us).ave / |us| == 0
  {
    MergedAve(us);
    hide *;
    SmallMod(MergedOf(us).ave, |us|);
  }

  lemma MinNotReset(us: seq<seq<nat>>)
    requires us != [] && !Resets(us[|us| - 1])
    ensures MergedOf(us).min > 0
  {
    hide *;
    NoLateSamples(us);
    MergedMinExactly(us);
  }

  lemma SameShape(ts: seq<seq<nat>>, us: seq<seq<nat>>)
    requires ts != [] && SameZeros(ts, us)
    ensures Resets(us[|us| - 1]) == Resets(ts[|ts| - 1])
    ensures AllPositive(ts) ==> AllPositive(us)
  {
    if AllPositive(ts) {
      forall t | t in us
        ensures t != [] && 0 !in t
      {
        var i :| 0 <= i < |us| && us[i] == t;
        assert ts[i] in ts;
      }
    }
  }

  /**
   Which samples are zero decides: the merged minimum is at most the merged average, whatever the
   other samples are, exactly if the last thread is empty or ends in zero, or all samples are
   positive and no thread is empty.
   */
  lemma MergedMinBelowAveExactly(ts: seq<seq<nat>>)
    requires ts != [] && forall t | t in ts :: |t| < TWO_64
    ensures (forall us | SameZeros(ts, us) && NoOverflow(us) :: MergedOf(us).min <= MergedOf(us).ave / |us|) <==>
            Resets(ts[|ts| - 1]) || AllPositive(ts)
  {
    hide MergedOf, Resets, AllPositive, SameZeros, NoOverflow;
    if Resets(ts[|ts| - 1]) || AllPositive(ts) {
      forall us | SameZeros(ts, us) && NoOverflow(us)
        ensures |us| > 0 && MergedOf(us).min <= MergedOf(us).ave / |us|
      {
        SameSize(ts, us);
        SameShape(ts, us);
        if AllPositive(us) { PositiveMinBelowAve(us); } else { ResetMinBelowAve(us); }
      }
    } else {
      OnesAboveAve(ts);
    }
  }

  lemma SameSize(ts: seq<seq<nat>>, us: seq<seq<nat>>)
    requires SameZeros(ts, us)
    ensures |us| == |ts|
  {}

  lemma PositiveMinBelowAve(us: seq<seq<nat>>)
    requires us != [] && AllPositive(us) && NoOverflow(us)
    ensures MergedOf(us).min <= MergedOf(us).ave / |us|
  {
    hide MergedOf, Sum;
    MergedMinBelowAve(us);
  }

  lemma ResetMinBelowAve(us: seq<seq<nat>>)
    requires us != [] && Resets(us[|us| - 1])
    ensures MergedOf(us).min <= MergedOf(us).ave / |us|
  {
    hide MergedOf, LateSamples, Resets, Flatten;
    NoLateSamples(us);
    MergedMinExactly(us);
  }

  /** Two such inputs: an empty thread, and a zero sample in front of another one. */
  lemma MinAboveAve()
    ensures MergedOf([[], [1]]).min > MergedOf([[], [1]]).ave / 2
    ensures MergedOf([[0, 1]]).min > MergedOf([[0, 1]]).ave / 1
  {
    hide MergedOf;
    AboveAve([[], [1]], 0);
    AboveAve([[0, 1]], 0);
  }

  lemma AboveAve(ts: seq<seq<nat>>, i: nat)
    requires i < |ts| && (ts[i] == [] || 0 in ts[i]) && !Resets(ts[|ts| - 1])
    requires forall t | t in ts :: |t| < TWO_64 && forall x | x in t :: x <= 1
    ensures MergedOf(ts).min > MergedOf(ts).ave / |ts|
  {
    hide MergedOf;
    assert ts[i] in ts && !AllPositive(ts);
    assert Ones(ts) == ts by {
      forall k | 0 <= k < |ts|
        ensures OnesOf(ts[k]) == ts[k]
      {
        assert ts[k] in ts;
        assert forall j | 0 <= j < |ts[k]| :: ts[k][j] in ts[k];
      }
    }
    OnesAboveAve(ts);
  }
}
