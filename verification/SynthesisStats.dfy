/**
 The statistics that the synthesizer callbacks keep for one worker and the totals over all workers
 (demo/Linux/flowingSynthesizerDemo.cpp).
 */
module SynthesisStats {
  import opened Basics
  import opened Splitter
  import opened Latency
  import opened DivMod
  import opened Pacing

  // ---- The connection type of a closed event ----

  const KEY: string := "\"connect_type\":\""

  /** The first key in the input, at `i`, is followed by `t` and a quote. */
  ghost predicate Names(input: string, i: nat, t: string) {
    && MatchesAt(input, KEY + t + "\"", i)
    && '\"' !in t
    && forall j: nat | j < i :: !MatchesAt(input, KEY, j)
  }

  /** The text between the first key and the next quote; empty if there is none. */
  function FindConnectType(input: string): (r: string)
    ensures r != "" ==> exists i: nat :: Names(input, i, r)
    ensures forall i: nat, t | Names(input, i, t) :: r == t
  {
    match Find(input, KEY, 0)
    case None =>
      NoKey(input);
      ""
    case Some(key) =>
      var start := key + |KEY|;
      match Find(input, "\"", start)
      case None =>
        NoEnd(input, key);
        ""
      case Some(end) =>
        FoundType(input, key, end);
        input[start..end]
  }

  ghost predicate KeyAt(input: string, j: nat) {
    j + 16 <= |input| && input[j..j + 16] == "\"connect_type\":\""
  }

  /** The key and the quotes, letter by letter. */
  lemma ConnectTypeOf(input: string, i: nat, t: string)
    requires KeyAt(input, i) && forall j: nat | j < i :: !KeyAt(input, j)
    requires '\"' !in t && i + 17 + |t| <= |input| && input[i + 16..i + 17 + |t|] == t + "\""
    ensures FindConnectType(input) == t
  {
    assert |KEY| == 16;
    forall j: nat | j < i ensures !MatchesAt(input, KEY, j) {
      assert !KeyAt(input, j);
    }
    var n := |t| + 17;
    assert input[i..i + n] == input[i..i + 16] + input[i + 16..i + n];
    assert Names(input, i, t);
  }

  lemma KeyOfName(input: string, i: nat, t: string)
    requires Names(input, i, t)
    ensures MatchesAt(input, KEY, i) && MatchesAt(input, "\"", i + |KEY| + |t|)
    ensures input[i + |KEY|..i + |KEY| + |t|] == t
  {
    var text := KEY + t + "\"";
    var m, n := |KEY|, |text|;
    assert input[i..i + n] == text && n == m + |t| + 1;
    SliceOfSlice(input, i, n, 0, m);
    SliceOfSlice(input, i, n, m, m + |t|);
    SliceOfSlice(input, i, n, m + |t|, n);
    assert text[0..m] == KEY && text[m..m + |t|] == t && text[m + |t|..n] == "\"";
  }

  lemma NoKey(input: string)
    requires forall j: nat :: !MatchesAt(input, KEY, j)
    ensures forall i: nat, t :: !Names(input, i, t)
  {
    forall i: nat, t | Names(input, i, t) ensures false {
      KeyOfName(input, i, t);
    }
  }

  lemma NoEnd(input: string, key: nat)
    requires MatchesAt(input, KEY, key) && forall j: nat | j < key :: !MatchesAt(input, KEY, j)
    requires forall j: nat | key + |KEY| <= j :: !MatchesAt(input, "\"", j)
    ensures forall i: nat, t :: !Names(input, i, t)
  {
    forall i: nat, t | Names(input, i, t) ensures false {
      KeyOfName(input, i, t);
    }
  }

  lemma FoundType(input: string, key: nat, end: nat)
    requires MatchesAt(input, KEY, key) && forall j: nat | j < key :: !MatchesAt(input, KEY, j)
    requires key + |KEY| <= end && MatchesAt(input, "\"", end)
    requires forall j: nat | key + |KEY| <= j < end :: !MatchesAt(input, "\"", j)
    ensures Names(input, key, input[key + |KEY|..end])
    ensures forall i: nat, t | Names(input, i, t) :: t == input[key + |KEY|..end]
  {
    var start := key + |KEY|;
    var r := input[start..end];
    NoQuote(input, start, end);
    assert input[key..end + 1] == KEY + r + "\"" by {
      assert input[key..start] == KEY && input[end..end + 1] == "\"";
    }
    forall i: nat, t | Names(input, i, t)
      ensures t == r
    {
      KeyOfName(input, i, t);
      assert i == key;
      assert forall k | 0 <= k < |t| :: input[start + k] == t[k] && t[k] != '\"';
      assert input[end] == input[end..end + 1][0] == '\"';
      assert start + |t| <= end;
    }
  }

  lemma NoQuote(input: string, start: nat, end: nat)
    requires start <= end <= |input| && forall j: nat | start <= j < end :: !MatchesAt(input, "\"", j)
    ensures '\"' !in input[start..end]
  {
    forall k | start <= k < end
      ensures input[k] != '\"'
    {
      assert !MatchesAt(input, "\"", k) && input[k..k + 1] == [input[k]];
    }
  }

  const CONNECT_TYPES: seq<string> := [
    "connect_with_SSL", "connect_with_direct_IP", "connect_with_IP_from_cache",
    "connect_with_long_connection", "connect_with_SSL_from_PrestartedPool",
    "connect_with_SSL_from_PreconnectedPool"]

  // ---- Events and what they contribute ----

  /** `start` is the time the worker called `start()` for the round the event belongs to. */
  datatype Event =
    | Started(start: Timeval, at: Timeval)
    | Data(start: Timeval, at: Timeval, size: nat)
    | Completed(start: Timeval, at: Timeval)
    | Failed
    | Closed(start: Timeval, at: Timeval, response: string)

  datatype Kind = StartedTimes | FirstTimes | EndTimes | CloseTimes

  /** A data packet has arrived since the last started event. */
  predicate PacketSeen(es: seq<Event>) {
    es != [] && match es[|es| - 1]
                case Started(_, _) => false
                case Data(_, _, _) => true
                case _ => PacketSeen(es[..|es| - 1])
  }

  /** The events a metric is about: of the data packets only the first one after each started event. */
  predicate Measured(es: seq<Event>, e: Event, kind: Kind) {
    match kind
    case StartedTimes => e.Started?
    case FirstTimes => e.Data? && !PacketSeen(es)
    case EndTimes => e.Completed?
    case CloseTimes => e.Closed?
  }

  function Elapsed(e: Event): nat {
    match e
    case Completed(start, at) => DirectElapsedMs(start, at)
    case Started(start, at) => ElapsedMs(start, at)
    case Data(start, at, _) => ElapsedMs(start, at)
    case Closed(start, at, _) => ElapsedMs(start, at)
    case Failed => 0
  }

  function Samples(es: seq<Event>, kind: Kind): seq<nat> {
    if es == [] then []
    else
      var init, e := es[..|es| - 1], es[|es| - 1];
      if Measured(init, e, kind) then Samples(init, kind) + [Elapsed(e)] else Samples(init, kind)
  }

  function FailedCount(es: seq<Event>): nat {
    if es == [] then 0 else FailedCount(es[..|es| - 1]) + if es[|es| - 1].Failed? then 1 else 0
  }

  // ---- Audio durations ----

  /** Conversion to `int`. */
  function Int32(x: int): (r: int)
    ensures -2_147_483_648 <= r <= 2_147_483_647 && (x - r) % 0x1_0000_0000 == 0
    ensures IsInt32(r) && (IsInt32(x) ==> r == x)
  {
    (x + INT_MAX + 1) % 0x1_0000_0000 - INT_MAX - 1
  }

  /** What the duration function makes of a packet. */
  function PacketMs(size: nat, sampleRate: nat): nat
    requires Supported(sampleRate)
  {
    assert BytesPerMs(sampleRate) > 0 by { TimeIsMs(0, sampleRate); }
    AudioFileTimeMs(Int32(size), sampleRate, 1).value
  }

  function AudioMs(es: seq<Event>, sampleRate: nat): nat
    requires Supported(sampleRate)
  {
    if es == [] then 0
    else
      var e := es[|es| - 1];
      AudioMs(es[..|es| - 1], sampleRate) + if e.Data? then PacketMs(e.size, sampleRate) else 0
  }

  /** The average duration per completed event, as of the last completed event. */
  function AudioAve(es: seq<Event>, sampleRate: nat): nat
    requires Supported(sampleRate)
  {
    if es == [] then 0
    else if es[|es| - 1].Completed? then U64(AudioMs(es, sampleRate)) / (1 + |Samples(es[..|es| - 1], EndTimes)|)
    else AudioAve(es[..|es| - 1], sampleRate)
  }

  function PacketSizes(es: seq<Event>): seq<nat> {
    if es == [] then []
    else if es[|es| - 1].Data? then PacketSizes(es[..|es| - 1]) + [es[|es| - 1].size]
    else PacketSizes(es[..|es| - 1])
  }

  lemma {:induction false} AudioMsIsTotal(es: seq<Event>, sampleRate: nat)
    requires Supported(sampleRate) && forall n | n in PacketSizes(es) :: n <= INT_MAX
    ensures BytesPerMs(sampleRate) > 0
    ensures AudioMs(es, sampleRate) == TotalMs(PacketSizes(es), BytesPerMs(sampleRate))
  {
    hide PacketMs, BytesPerMs;
    TimeIsMs(0, sampleRate);
    if es == [] {
    } else {
      var init, e := es[..|es| - 1], es[|es| - 1];
      assert forall n | n in PacketSizes(init) :: n in PacketSizes(es);
      AudioMsIsTotal(init, sampleRate);
      if e.Data? {
        assert e.size in PacketSizes(es);
        PacketMsIs(e.size, sampleRate);
        hide TotalMs;
        TotalMsSnoc(PacketSizes(init), e.size, BytesPerMs(sampleRate));
      }
    }
  }

  lemma PacketMsIs(size: nat, sampleRate: nat)
    requires Supported(sampleRate) && size <= 2_147_483_647
    ensures BytesPerMs(sampleRate) == sampleRate / 500 > 0
    ensures PacketMs(size, sampleRate) == size / (sampleRate / 500) == Ms(size, BytesPerMs(sampleRate))
  {
    TimeIsMs(size, sampleRate);
  }

  /** The summed durations fall short of that of all data by less than a millisecond a packet. */
  lemma AudioDrift(es: seq<Event>, sampleRate: nat)
    requires Supported(sampleRate) && PacketSizes(es) != []
    requires forall n | n in PacketSizes(es) :: n <= 2_147_483_647
    ensures var sizes := PacketSizes(es);
            var whole := Sum(sizes) / (sampleRate / 500);
            AudioMs(es, sampleRate) <= whole <= AudioMs(es, sampleRate) + |sizes| - 1
  {
    TimeIsMs(0, sampleRate);
    hide AudioMs, BytesPerMs, PacketSizes, TotalMs, Sum;
    AudioMsIsTotal(es, sampleRate);
    DriftBounds(PacketSizes(es), BytesPerMs(sampleRate));
  }

  // ---- Latency buckets ----

  const LIMITS: seq<nat> := [50, 100, 200, 500, 1000, 1500, 2000]

  predicate InBucket(v: nat, k: nat)
    requires k < 8
  {
    (k > 0 ==> v > LIMITS[k - 1]) && (k < 7 ==> v <= LIMITS[k])
  }

  function Count(s: seq<nat>, k: nat): nat
    requires k < 8
  {
    if s == [] then 0 else Count(s[1..], k) + if InBucket(s[0], k) then 1 else 0
  }

  function Histogram(s: seq<nat>): (h: seq<nat>)
    ensures |h| == 8 && forall k | 0 <= k < 8 :: h[k] == Count(s, k)
  {
    seq(8, k requires 0 <= k < 8 => Count(s, k))
  }

  /** The bounds in milliseconds. */
  lemma BucketLimits(v: nat)
    ensures InBucket(v, 0) <==> v <= 50
    ensures InBucket(v, 1) <==> 50 < v <= 100
    ensures InBucket(v, 2) <==> 100 < v <= 200
    ensures InBucket(v, 3) <==> 200 < v <= 500
    ensures InBucket(v, 4) <==> 500 < v <= 1000
    ensures InBucket(v, 5) <==> 1000 < v <= 1500
    ensures InBucket(v, 6) <==> 1500 < v <= 2000
    ensures InBucket(v, 7) <==> v > 2000
  {}

  /** The buckets partition the latencies. */
  lemma OneBucket(v: nat, k: nat, l: nat)
    requires k < 8 && l < 8 && InBucket(v, k) && InBucket(v, l)
    ensures k == l
  {}

  lemma {:induction false} CountAppend(a: seq<nat>, b: seq<nat>, k: nat)
    requires k < 8
    ensures Count(a + b, k) == Count(a, k) + Count(b, k)
  {
    if a == [] {
      assert a + b == b;
    } else {
      assert (a + b)[1..] == a[1..] + b;
      CountAppend(a[1..], b, k);
    }
  }

  lemma HistogramSnoc(s: seq<nat>, v: nat, b: nat)
    requires b < 8 && InBucket(v, b)
    ensures Histogram(s + [v]) == Histogram(s)[b := Histogram(s)[b] + 1]
  {
    forall k | 0 <= k < 8
      ensures Count(s + [v], k) == Count(s, k) + if k == b then 1 else 0
    {
      CountAppend(s, [v], k);
      assert [v][1..] == [];
      assert Count([v], k) == if InBucket(v, k) then 1 else 0;
      if InBucket(v, k) { OneBucket(v, k, b); }
    }
  }

  lemma {:induction false} SumIncrement(s: seq<nat>, k: nat)
    requires k < |s|
    ensures Sum(s[k := s[k] + 1]) == Sum(s) + 1
  {
    if k > 0 {
      SumIncrement(s[1..], k - 1);
      assert s[k := s[k] + 1][1..] == s[1..][k - 1 := s[1..][k - 1] + 1];
    } else {
      assert s[0 := s[0] + 1][1..] == s[1..];
    }
  }

  lemma {:induction false} SumZeros(s: seq<nat>)
    requires forall k | 0 <= k < |s| :: s[k] == 0
    ensures Sum(s) == 0
  {
    if s == [] {
    } else {
      SumZeros(s[1..]);
    }
  }

  function BucketOf(v: nat): (k: nat)
    ensures k < 8 && InBucket(v, k)
  {
    if v > 2000 then 7 else if v > 1500 then 6 else if v > 1000 then 5 else if v > 500 then 4
    else if v > 200 then 3 else if v > 100 then 2 else if v > 50 then 1 else 0
  }

  /** Every latency falls into exactly one bucket, so the buckets add up to the count. */
  lemma {:induction false} BucketsAddUp(s: seq<nat>)
    ensures Sum(Histogram(s)) == |s|
  {
    hide Histogram, Sum, BucketOf, InBucket;
    if s == [] {
      SumZeros(Histogram(s));
    } else {
      var init, v := s[..|s| - 1], s[|s| - 1];
      assert s == init + [v];
      BucketsAddUp(init);
      HistogramSnoc(init, v, BucketOf(v));
      SumIncrement(Histogram(init), BucketOf(v));
    }
  }

  // ---- Connection counters ----

  function ConnectCount(es: seq<Event>, k: nat): nat
    requires k < 6
  {
    if es == [] then 0
    else
      var e := es[|es| - 1];
      ConnectCount(es[..|es| - 1], k) +
      if e.Closed? && FindConnectType(e.response) == CONNECT_TYPES[k] then 1 else 0
  }

  function ConnectCounts(es: seq<Event>): (c: seq<nat>)
    ensures |c| == 6 && forall k | 0 <= k < 6 :: c[k] == ConnectCount(es, k)
  {
    seq(6, k requires 0 <= k < 6 => ConnectCount(es, k))
  }

  predicate Recognized(e: Event) {
    e.Closed? && FindConnectType(e.response) in CONNECT_TYPES
  }

  function RecognizedCount(es: seq<Event>): nat {
    if es == [] then 0 else RecognizedCount(es[..|es| - 1]) + if Recognized(es[|es| - 1]) then 1 else 0
  }

  lemma TypesDistinct(k: nat, l: nat)
    requires k < 6 && l < 6 && CONNECT_TYPES[k] == CONNECT_TYPES[l]
    ensures k == l
  {
    assert |CONNECT_TYPES[0]| == 16 && |CONNECT_TYPES[1]| == 22 && |CONNECT_TYPES[2]| == 26;
    assert |CONNECT_TYPES[3]| == 28 && |CONNECT_TYPES[4]| == 36 && |CONNECT_TYPES[5]| == 38;
  }

  /** The counter of connection type `t`, if there is one, goes up by one. */
  function Bump(c: seq<nat>, t: string): seq<nat>
    requires |c| == 6
  {
    seq(6, l requires 0 <= l < 6 => c[l] + if CONNECT_TYPES[l] == t then 1 else 0)
  }

  lemma BumpAt(c: seq<nat>, k: nat)
    requires |c| == 6 && k < 6
    ensures Bump(c, CONNECT_TYPES[k]) == c[k := c[k] + 1]
  {
    forall l: nat | l < 6 && CONNECT_TYPES[l] == CONNECT_TYPES[k]
      ensures l == k
    {
      TypesDistinct(l, k);
    }
  }

  /** The six types by name. */
  lemma TypesByName(c: seq<nat>)
    requires |c| == 6
    ensures Bump(c, "connect_with_SSL") == c[0 := c[0] + 1]
    ensures Bump(c, "connect_with_direct_IP") == c[1 := c[1] + 1]
    ensures Bump(c, "connect_with_IP_from_cache") == c[2 := c[2] + 1]
    ensures Bump(c, "connect_with_long_connection") == c[3 := c[3] + 1]
    ensures Bump(c, "connect_with_SSL_from_PrestartedPool") == c[4 := c[4] + 1]
    ensures Bump(c, "connect_with_SSL_from_PreconnectedPool") == c[5 := c[5] + 1]
  {
    hide Bump;
    forall k: nat | k < 6 { BumpAt(c, k); }
  }

  lemma BumpUnknown(c: seq<nat>, t: string)
    requires |c| == 6 && t !in CONNECT_TYPES
    ensures Bump(c, t) == c
  {
    assert forall l | 0 <= l < 6 :: CONNECT_TYPES[l] in CONNECT_TYPES;
  }

  lemma ConnectExtend(es: seq<Event>, e: Event)
    ensures ConnectCounts(es + [e]) ==
            if e.Closed? then Bump(ConnectCounts(es), FindConnectType(e.response)) else ConnectCounts(es)
  {
    hide FindConnectType;
    assert (es + [e])[..|es|] == es;
  }

  /** The six counters add up to the closed events whose connection type is known. */
  lemma {:induction false} ConnectAddUp(es: seq<Event>)
    ensures Sum(ConnectCounts(es)) == RecognizedCount(es) <= |Samples(es, CloseTimes)|
  {
    hide FindConnectType, ConnectCounts, Sum, Elapsed, Bump;
    if es == [] {
      SumZeros(ConnectCounts(es));
    } else {
      var init, e := es[..|es| - 1], es[|es| - 1];
      assert es == init + [e];
      ConnectAddUp(init);
      ConnectExtend(init, e);
      if Recognized(e) {
        var k :| 0 <= k < 6 && FindConnectType(e.response) == CONNECT_TYPES[k];
        BumpAt(ConnectCounts(init), k);
        SumIncrement(ConnectCounts(init), k);
      } else if e.Closed? {
        BumpUnknown(ConnectCounts(init), FindConnectType(e.response));
      }
    }
  }

  // ---- First packets ----

  /** A packet is counted at most once per started event, and once before the first of them. */
  lemma {:induction false} FirstPacketBound(es: seq<Event>)
    ensures |Samples(es, FirstTimes)| + (if PacketSeen(es) then 0 else 1) <= |Samples(es, StartedTimes)| + 1
  {
    hide Elapsed;
    if es == [] {
    } else {
      FirstPacketBound(es[..|es| - 1]);
    }
  }

  predicate StartedBeforeData(es: seq<Event>) {
    forall i | 0 <= i < |es| && es[i].Data? :: exists j :: 0 <= j < i && es[j].Started?
  }

  lemma {:induction false} FirstPacketPerStart(es: seq<Event>)
    requires StartedBeforeData(es)
    ensures |Samples(es, FirstTimes)| <= |Samples(es, StartedTimes)|
    ensures (exists j :: 0 <= j < |es| && es[j].Started?) ==>
              |Samples(es, FirstTimes)| + (if PacketSeen(es) then 0 else 1) <= |Samples(es, StartedTimes)|
    ensures PacketSeen(es) ==> exists j :: 0 <= j < |es| && es[j].Started?
  {
    hide Elapsed;
    if es == [] {
    } else {
      var n := |es| - 1;
      var init, e := es[..n], es[n];
      StartedBeforePrefix(es, n);
      FirstPacketPerStart(init);
      if e.Data? {
        var j :| 0 <= j < n && es[j].Started?;
        assert init[j].Started?;
      } else if exists j :: 0 <= j < n && es[j].Started? {
        var j :| 0 <= j < n && es[j].Started?;
        assert init[j].Started?;
      }
      if PacketSeen(init) {
        var j :| 0 <= j < n && init[j].Started?;
        assert es[j].Started?;
      }
    }
  }

  /** Nothing but the i-th event decides whether a packet is seen: it is data, and no started event follows. */
  ghost predicate LastDecisive(es: seq<Event>, i: nat) {
    i < |es| && es[i].Data? && forall j | i < j < |es| :: !es[j].Started?
  }

  lemma LastDecisiveSnoc(es: seq<Event>, e: Event, i: nat)
    ensures LastDecisive(es + [e], i) <==> if i == |es| then e.Data? else LastDecisive(es, i) && !e.Started?
  {
    var more := es + [e];
    assert forall j | 0 <= j < |es| :: more[j] == es[j];
    assert more[|es|] == e;
  }

  /** A data packet has arrived, and no started event after it. */
  lemma {:induction false} PacketSeenExactly(es: seq<Event>)
    ensures PacketSeen(es) <==> exists i: nat :: LastDecisive(es, i)
  {
    if es == [] {
    } else {
      var n := |es| - 1;
      var init, e := es[..n], es[n];
      assert es == init + [e];
      PacketSeenExactly(init);
      hide LastDecisive;
      forall i: nat {
        LastDecisiveSnoc(init, e, i);
      }
      assert LastDecisive(es, n) <==> e.Data?;
      assert !LastDecisive(init, n) by { NotBeyond(init, n); }
    }
  }

  lemma NotBeyond(es: seq<Event>, i: nat)
    requires i >= |es|
    ensures !LastDecisive(es, i)
  {}

  /** The milliseconds from `start` to `at`, for a clock that has not gone back. */
  ghost predicate Took(start: Timeval, at: Timeval, ms: nat) {
    var us := (at.sec - start.sec) * 1_000_000 + at.usec - start.usec;
    0 <= us < 0x1_0000_0000_0000_0000 && ms == us / 1000
  }

  lemma TookExactly(start: Timeval, at: Timeval, ms: nat)
    requires Took(start, at, ms)
    ensures ElapsedMs(start, at) == DirectElapsedMs(start, at) == ms
  {
    ElapsedExactly(start, at);
    ElapsedModulo(start, at);
  }

  /** Which sample each event contributes, to which metric. */
  lemma EventSamples(es: seq<Event>, e: Event, kind: Kind, ms: nat)
    requires !e.Failed? ==> Took(e.start, e.at, ms)
    ensures var was, now := Samples(es, kind), Samples(es + [e], kind);
            match e
            case Started(_, _) => now == if kind == StartedTimes then was + [ms] else was
            case Data(_, _, _) =>
              now == if kind == FirstTimes && !PacketSeen(es) then was + [ms] else was
            case Completed(_, _) => now == if kind == EndTimes then was + [ms] else was
            case Closed(_, _, _) => now == if kind == CloseTimes then was + [ms] else was
            case Failed => now == was
  {
    hide ElapsedMs, DirectElapsedMs;
    if !e.Failed? { TookExactly(e.start, e.at, ms); }
    hide Samples, PacketSeen, MetricOf, Observe, Took;
    ExtendKind(es, e, kind);
  }

  lemma {:induction false} NoStartedYet(es: seq<Event>)
    requires forall e | e in es :: !e.Started?
    ensures Samples(es, StartedTimes) == []
  {
    hide Elapsed;
    if es == [] {
    } else {
      assert forall e | e in es[..|es| - 1] :: e in es;
      NoStartedYet(es[..|es| - 1]);
    }
  }

  /** At no time are there more first packets than started events. */
  ghost predicate NeverAhead(es: seq<Event>) {
    forall n: nat | n <= |es| :: |Samples(es[..n], FirstTimes)| <= |Samples(es[..n], StartedTimes)|
  }

  /** The first data packet is the one that comes too early. */
  lemma {:induction false} EarlyData(es: seq<Event>, i: nat) returns (n: nat)
    requires i < |es| && es[i].Data? && forall j | 0 <= j < i :: !es[j].Started?
    ensures n <= |es| && |Samples(es[..n], FirstTimes)| > |Samples(es[..n], StartedTimes)|
  {
    hide Elapsed;
    var before := es[..i];
    assert es[..i + 1][..i] == before;
    if PacketSeen(before) {
      var k := DataSeen(before);
      n := EarlyData(es, k);
    } else {
      n := i + 1;
      NoStartedYet(es[..n]);
    }
  }

  lemma {:induction false} DataSeen(es: seq<Event>) returns (k: nat)
    requires PacketSeen(es)
    ensures k < |es| && es[k].Data?
  {
    if es[|es| - 1].Data? {
      k := |es| - 1;
    } else {
      k := DataSeen(es[..|es| - 1]);
    }
  }

  /** That holds exactly when a started event precedes all data. */
  lemma FirstPacketExactly(es: seq<Event>)
    ensures NeverAhead(es) <==> StartedBeforeData(es)
  {
    hide Samples;
    if StartedBeforeData(es) {
      forall n: nat | n <= |es|
        ensures |Samples(es[..n], FirstTimes)| <= |Samples(es[..n], StartedTimes)|
      {
        StartedBeforePrefix(es, n);
        FirstPacketPerStart(es[..n]);
      }
    } else {
      var i :| 0 <= i < |es| && es[i].Data? && !exists j :: 0 <= j < i && es[j].Started?;
      var n := EarlyData(es, i);
    }
  }

  lemma StartedBeforePrefix(es: seq<Event>, n: nat)
    requires StartedBeforeData(es) && n <= |es|
    ensures StartedBeforeData(es[..n])
  {
    forall i | 0 <= i < n && es[..n][i].Data?
      ensures exists j :: 0 <= j < i && es[..n][j].Started?
    {
      assert es[i].Data?;
      var j :| 0 <= j < i && es[j].Started?;
      assert es[..n][j].Started?;
    }
  }

  /** Data that overtakes the first started event is counted without a started event to pair it with. */
  lemma StrayFirstPacket(t: Timeval)
    ensures |Samples([Data(t, t, 0)], FirstTimes)| == 1 && |Samples([Data(t, t, 0)], StartedTimes)| == 0
  {
    var es := [Data(t, t, 0)];
    assert es[..0] == [];
  }

  // ---- The callbacks ----

  lemma ExtendKind(es: seq<Event>, e: Event, kind: Kind)
    ensures Samples(es + [e], kind) ==
            if Measured(es, e, kind) then Samples(es, kind) + [Elapsed(e)] else Samples(es, kind)
    ensures MetricOf(Samples(es + [e], kind)) ==
            if Measured(es, e, kind) then Observe(MetricOf(Samples(es, kind)), Elapsed(e))
            else MetricOf(Samples(es, kind))
  {
    hide MetricOf, Observe, Elapsed;
    assert (es + [e])[..|es|] == es;
    if Measured(es, e, kind) {
      ObserveIsMetric(Samples(es, kind), Elapsed(e));
    }
  }

  /** One more event, in terms of what the callbacks update. */
  lemma Extend(es: seq<Event>, e: Event)
    ensures forall kind ::
              Samples(es + [e], kind) ==
              if Measured(es, e, kind) then Samples(es, kind) + [Elapsed(e)] else Samples(es, kind)
    ensures forall kind ::
              MetricOf(Samples(es + [e], kind)) ==
              if Measured(es, e, kind) then Observe(MetricOf(Samples(es, kind)), Elapsed(e))
              else MetricOf(Samples(es, kind))
    ensures PacketSeen(es + [e]) == if e.Started? then false else if e.Data? then true else PacketSeen(es)
    ensures FailedCount(es + [e]) == FailedCount(es) + if e.Failed? then 1 else 0
    ensures ConnectCounts(es + [e]) ==
            if e.Closed? then Bump(ConnectCounts(es), FindConnectType(e.response)) else ConnectCounts(es)
  {
    hide MetricOf, Observe, Elapsed, Samples, Measured, ConnectCounts, FindConnectType, Bump;
    assert (es + [e])[..|es|] == es;
    forall kind {
      ExtendKind(es, e, kind);
    }
    ConnectExtend(es, e);
  }

  lemma ExtendAudio(es: seq<Event>, e: Event, sampleRate: nat)
    requires Supported(sampleRate)
    ensures U64(AudioMs(es + [e], sampleRate)) ==
            if e.Data? then U64(U64(AudioMs(es, sampleRate)) + PacketMs(e.size, sampleRate))
            else U64(AudioMs(es, sampleRate))
    ensures AudioAve(es + [e], sampleRate) ==
            if e.Completed? then U64(AudioMs(es, sampleRate)) / (1 + |Samples(es, EndTimes)|)
            else AudioAve(es, sampleRate)
  {
    hide PacketMs, Samples, U64;
    assert (es + [e])[..|es|] == es;
    if e.Data? { WrapSum(AudioMs(es, sampleRate), PacketMs(e.size, sampleRate)); }
  }

  /** Behind a completed event the average duration times the completed events is the total, but for a fraction. */
  lemma AudioAveMeans(es: seq<Event>, e: Event, sampleRate: nat)
    requires Supported(sampleRate) && e.Completed?
    ensures var n, ave := |Samples(es + [e], EndTimes)|, AudioAve(es + [e], sampleRate);
            n > 0 && ave * n <= U64(AudioMs(es + [e], sampleRate)) < (ave + 1) * n
  {
    hide Elapsed, PacketMs, MetricOf, Observe;
    ExtendAudio(es, e, sampleRate);
    ExtendKind(es, e, EndTimes);
    hide Samples, AudioMs, AudioAve, U64;
    var q, r := DivideByHand(U64(AudioMs(es, sampleRate)), 1 + |Samples(es, EndTimes)|);
    Distribute(q, 1, 1 + |Samples(es, EndTimes)|);
  }

  lemma CountObserved(s: seq<nat>, v: nat)
    ensures Observe(MetricOf(s), v).consumed == 1 + |s|
  {}

  /** A data packet in terms of what its callback updates. */
  lemma ExtendData(es: seq<Event>, e: Event)
    requires e.Data?
    ensures Histogram(Samples(es + [e], FirstTimes)) ==
            var h, k := Histogram(Samples(es, FirstTimes)), BucketOf(Elapsed(e));
            if PacketSeen(es) then h else h[k := h[k] + 1]
  {
    hide MetricOf, Observe, Elapsed, Samples, PacketSeen, Histogram, BucketOf, InBucket;
    ExtendKind(es, e, FirstTimes);
    if !PacketSeen(es) { HistogramSnoc(Samples(es, FirstTimes), Elapsed(e), BucketOf(Elapsed(e))); }
  }

  lemma WrapSum(a: nat, b: nat)
    ensures U64(U64(a) + b) == U64(a + b)
  {
    WrapEqual(U64(a) + b, a + b, a / TWO_64);
  }

  /** What the worker itself counts: requests, `stop()` calls, and the time spent in `start()` and `stop()`. */
  datatype ApiCounts = ApiCounts(requests: nat, startUs: nat, stopUs: nat, stops: nat)

  function AddApi(a: ApiCounts, b: ApiCounts): ApiCounts {
    ApiCounts(a.requests + b.requests, a.startUs + b.startUs, a.stopUs + b.stopUs, a.stops + b.stops)
  }

  class ParamStruct {
    const sampleRate: nat
    var started: Metric
    var first: Metric
    var ending: Metric
    var close: Metric
    var firstFlag: bool
    var failedConsumed: nat
    /** `s50Value`, `s100Value`, ..., `s2000Value`, `sToValue`. */
    var buckets: seq<nat>
    /** `connectWithSSL`, ..., in the order of `CONNECT_TYPES`. */
    var connect: seq<nat>
    var audioTotalDuration: nat
    var audioAveDuration: nat
    var api: ApiCounts
    ghost var events: seq<Event>

    ghost predicate Valid()
      reads this
    {
      && started == MetricOf(Samples(events, StartedTimes))
      && first == MetricOf(Samples(events, FirstTimes))
      && ending == MetricOf(Samples(events, EndTimes))
      && close == MetricOf(Samples(events, CloseTimes))
      && firstFlag == PacketSeen(events)
      && failedConsumed == FailedCount(events)
      && buckets == Histogram(Samples(events, FirstTimes))
      && connect == ConnectCounts(events)
      && Supported(sampleRate)
      && audioTotalDuration == U64(AudioMs(events, sampleRate))
      && audioAveDuration == AudioAve(events, sampleRate)
    }

    constructor (sampleRate: nat)
      requires Supported(sampleRate)
      ensures Valid() && events == [] && api == ApiCounts(0, 0, 0, 0) && this.sampleRate == sampleRate
    {
      this.sampleRate := sampleRate;
      audioTotalDuration, audioAveDuration, api := 0, 0, ApiCounts(0, 0, 0, 0);
      started, first, ending, close := ZERO, ZERO, ZERO, ZERO;
      firstFlag, failedConsumed := false, 0;
      buckets, connect := [0, 0, 0, 0, 0, 0, 0, 0], [0, 0, 0, 0, 0, 0];
      events := [];
      new;
      assert MetricOf([]) == ZERO;
    }

    method OnSynthesisStarted(start: Timeval, at: Timeval)
      requires Valid()
      modifies this
      ensures Valid() && events == old(events) + [Started(start, at)] && api == old(api)
    {
      hide MetricOf, Observe, Samples, AudioMs, AudioAve, PacketMs, PacketSeen, FailedCount, ElapsedMs,
           Histogram, ConnectCounts;
      Extend(events, Started(start, at));
      ExtendAudio(events, Started(start, at), sampleRate);
      started := Observe(started, ElapsedMs(start, at));
      firstFlag := false;
      events := events + [Started(start, at)];
    }

    method OnSynthesisCompleted(start: Timeval, at: Timeval)
      requires Valid()
      modifies this
      ensures Valid() && events == old(events) + [Completed(start, at)] && api == old(api)
    {
      hide MetricOf, Observe, Samples, AudioMs, AudioAve, PacketMs, PacketSeen, FailedCount, DirectElapsedMs,
           Histogram, ConnectCounts;
      Extend(events, Completed(start, at));
      ExtendAudio(events, Completed(start, at), sampleRate);
      CountObserved(Samples(events, EndTimes), DirectElapsedMs(start, at));
      ending := Observe(ending, DirectElapsedMs(start, at));
      audioAveDuration := audioTotalDuration / ending.consumed;
      events := events + [Completed(start, at)];
    }

    method OnSynthesisTaskFailed()
      requires Valid()
      modifies this
      ensures Valid() && events == old(events) + [Failed] && api == old(api)
    {
      hide MetricOf, Observe, Samples, AudioMs, AudioAve, PacketMs, PacketSeen, Histogram, ConnectCounts;
      Extend(events, Failed);
      ExtendAudio(events, Failed, sampleRate);
      failedConsumed := failedConsumed + 1;
      events := events + [Failed];
    }

    method OnSynthesisChannelClosed(start: Timeval, at: Timeval, response: string)
      requires Valid()
      modifies this
      ensures Valid() && events == old(events) + [Closed(start, at, response)] && api == old(api)
    {
      hide MetricOf, Observe, Samples, AudioMs, AudioAve, PacketMs, PacketSeen, FailedCount, ElapsedMs,
           Histogram, ConnectCounts, FindConnectType, Bump;
      ghost var e := Closed(start, at, response);
      Extend(events, e);
      ExtendAudio(events, e, sampleRate);
      close := Observe(close, ElapsedMs(start, at));
      CountConnection(FindConnectType(response));
      events := events + [e];
    }

    method CountConnection(connectType: string)
      requires |connect| == 6
      modifies this`connect
      ensures connect == Bump(old(connect), connectType)
    {
      hide Bump;
      if connectType == "connect_with_SSL" {
        BumpAt(connect, 0);
        connect := connect[0 := connect[0] + 1];
      } else if connectType == "connect_with_direct_IP" {
        BumpAt(connect, 1);
        connect := connect[1 := connect[1] + 1];
      } else if connectType == "connect_with_IP_from_cache" {
        BumpAt(connect, 2);
        connect := connect[2 := connect[2] + 1];
      } else if connectType == "connect_with_long_connection" {
        BumpAt(connect, 3);
        connect := connect[3 := connect[3] + 1];
      } else if connectType == "connect_with_SSL_from_PrestartedPool" {
        BumpAt(connect, 4);
        connect := connect[4 := connect[4] + 1];
      } else if connectType == "connect_with_SSL_from_PreconnectedPool" {
        BumpAt(connect, 5);
        connect := connect[5 := connect[5] + 1];
      } else {
        BumpUnknown(connect, connectType);
      }
    }

    method OnBinaryDataRecved(start: Timeval, at: Timeval, size: nat)
      requires Valid()
      modifies this
      ensures Valid() && events == old(events) + [Data(start, at, size)] && api == old(api)
    {
      hide MetricOf, Observe, Samples, AudioMs, AudioAve, PacketMs, PacketSeen, FailedCount, ElapsedMs, U64,
           Histogram, ConnectCounts, BucketOf, InBucket;
      Extend(events, Data(start, at, size));
      ExtendData(events, Data(start, at, size));
      ExtendAudio(events, Data(start, at, size), sampleRate);
      audioTotalDuration := U64(audioTotalDuration + PacketMs(size, sampleRate));
      if firstFlag == false {
        firstFlag := true;
        var timeValue := ElapsedMs(start, at);
        first := Observe(first, timeValue);
        CountLatency(timeValue);
      }
      events := events + [Data(start, at, size)];
    }

    method CountRequest()
      requires Valid()
      modifies this`api
      ensures Valid() && api == old(api).(requests := old(api).requests + 1)
    {
      hide MetricOf, Samples, PacketSeen, FailedCount, Histogram, ConnectCounts, AudioMs, AudioAve, U64;
      api := api.(requests := api.requests + 1);
    }

    method CountStart(us: nat)
      requires Valid()
      modifies this`api
      ensures Valid() && api == old(api).(startUs := old(api).startUs + us)
    {
      hide MetricOf, Samples, PacketSeen, FailedCount, Histogram, ConnectCounts, AudioMs, AudioAve, U64;
      api := api.(startUs := api.startUs + us);
    }

    method CountStop(us: nat)
      requires Valid()
      modifies this`api
      ensures Valid() && api == old(api).(stopUs := old(api).stopUs + us, stops := old(api).stops + 1)
    {
      hide MetricOf, Samples, PacketSeen, FailedCount, Histogram, ConnectCounts, AudioMs, AudioAve, U64;
      api := api.(stopUs := api.stopUs + us, stops := api.stops + 1);
    }

    method CountLatency(timeValue: nat)
      requires |buckets| == 8
      modifies this`buckets
      ensures buckets == old(buckets)[BucketOf(timeValue) := old(buckets)[BucketOf(timeValue)] + 1]
    {
      if timeValue > 2000 {
        buckets := buckets[7 := buckets[7] + 1];
      } else if timeValue <= 2000 && timeValue > 1500 {
        buckets := buckets[6 := buckets[6] + 1];
      } else if timeValue <= 1500 && timeValue > 1000 {
        buckets := buckets[5 := buckets[5] + 1];
      } else if timeValue <= 1000 && timeValue > 500 {
        buckets := buckets[4 := buckets[4] + 1];
      } else if timeValue <= 500 && timeValue > 200 {
        buckets := buckets[3 := buckets[3] + 1];
      } else if timeValue <= 200 && timeValue > 100 {
        buckets := buckets[2 := buckets[2] + 1];
      } else if timeValue <= 100 && timeValue > 50 {
        buckets := buckets[1 := buckets[1] + 1];
      } else if timeValue <= 50 {
        buckets := buckets[0 := buckets[0] + 1];
      }
    }
  }

  // ---- The totals over all workers ----

  ghost function Histories(pa: seq<ParamStruct>): (hs: seq<seq<Event>>)
    reads pa
    ensures |hs| == |pa| && forall i | 0 <= i < |pa| :: hs[i] == pa[i].events
  {
    seq(|pa|, i requires 0 <= i < |pa| reads pa => pa[i].events)
  }

  /** The samples of one kind, thread by thread. */
  function SamplesOf(hs: seq<seq<Event>>, kind: Kind): (ss: seq<seq<nat>>)
    ensures |ss| == |hs| && forall i | 0 <= i < |hs| :: ss[i] == Samples(hs[i], kind)
  {
    seq(|hs|, i requires 0 <= i < |hs| => Samples(hs[i], kind))
  }

  function AddAll(a: seq<nat>, b: seq<nat>): (c: seq<nat>)
    requires |a| == |b|
    ensures |c| == |a| && forall k | 0 <= k < |a| :: c[k] == a[k] + b[k]
  {
    seq(|a|, k requires 0 <= k < |a| => a[k] + b[k])
  }

  lemma HistogramAppend(a: seq<nat>, b: seq<nat>)
    ensures Histogram(a + b) == AddAll(Histogram(a), Histogram(b))
  {
    forall k | 0 <= k < 8 { CountAppend(a, b, k); }
  }

  /** One more thread in the merge loop. */
  lemma MergeOne(hs: seq<seq<Event>>, i: nat, kind: Kind)
    requires i < |hs|
    ensures MergeStep(MergedOf(SamplesOf(hs[..i], kind)), MetricOf(Samples(hs[i], kind))) ==
            MergedOf(SamplesOf(hs[..i + 1], kind))
    ensures Flatten(SamplesOf(hs[..i + 1], kind)) == Flatten(SamplesOf(hs[..i], kind)) + Samples(hs[i], kind)
  {
    hide MergeStep, MergedOf, MetricOf, Samples, Flatten;
    MergeStepIsMerged(SamplesOf(hs[..i], kind), Samples(hs[i], kind));
    assert SamplesOf(hs[..i + 1], kind) == SamplesOf(hs[..i], kind) + [Samples(hs[i], kind)];
    FlattenAppend(SamplesOf(hs[..i], kind), [Samples(hs[i], kind)]);
    FlattenSingle(Samples(hs[i], kind));
  }

  /** The division after the merge loop. */
  function Averaged(m: Merged, threads: nat): Merged
    requires threads > 0
  {
    m.(ave := m.ave / threads)
  }

  /**
   What a total means for the samples of all threads: their number, the largest one, the sum of
   the threads' averages over the number of threads, and the smallest one of `LateSamples`.
   */
  ghost predicate TotalIs(g: Merged, ss: seq<seq<nat>>)
    requires |ss| > 0
  {
    && g.count == |Flatten(ss)|
    && g.max == Max(Flatten(ss))
    && g.ave == Sum(ThreadAves(ss)) / |ss|
    && (if LateSamples(ss) == [] then g.min == 0
        else Flatten(LateSamples(ss)) != [] && g.min == Min(Flatten(LateSamples(ss))))
  }

  lemma AveragedIsTotal(ss: seq<seq<nat>>)
    requires |ss| > 0
    ensures TotalIs(Averaged(MergedOf(ss), |ss|), ss)
  {
    hide Max, Min, Flatten, LateSamples, ThreadMins, MinAfterZero, ThreadAves, Sum;
    MergedMinExactly(ss);
  }

  /** What `MergeAll` returns is in order: no average exceeds its maximum. */
  lemma TotalInOrder(g: Merged, ss: seq<seq<nat>>)
    requires |ss| > 0 && TotalIs(g, ss)
    ensures g.ave <= g.max
  {
    hide Max, Min, Flatten, LateSamples, ThreadAves, Sum;
    MergedAve(ss);
    hide MergedOf;
    assert g.ave == MergedOf(ss).ave / |ss| && g.max == MergedOf(ss).max;
    MergedAveBelowMax(ss);
  }

  // ---- The mean of means ----

  function ThreadSums(ts: seq<seq<nat>>): (r: seq<nat>)
    ensures |r| == |ts| && forall i | 0 <= i < |ts| :: r[i] == Sum(ts[i])
  {
    if ts == [] then [] else [Sum(ts[0])] + ThreadSums(ts[1..])
  }

  lemma {:induction false} SumOfSums(ts: seq<seq<nat>>)
    ensures Sum(ThreadSums(ts)) == Sum(Flatten(ts))
  {
    if ts == [] {
    } else {
      SumOfSums(ts[1..]);
      SumAppend(ts[0], Flatten(ts[1..]));
      assert ThreadSums(ts)[1..] == ThreadSums(ts[1..]);
    }
  }

  lemma {:induction false} FlattenLength(ts: seq<seq<nat>>, c: nat)
    requires forall t | t in ts :: |t| == c
    ensures |Flatten(ts)| == |ts| * c
  {
    if ts == [] {
    } else {
      assert ts[0] in ts && forall t | t in ts[1..] :: t in ts;
      FlattenLength(ts[1..], c);
      Distribute(1, |ts[1..]|, c);
    }
  }

  lemma {:induction false} AvesAreDurations(ts: seq<seq<nat>>, c: nat)
    requires c > 0 && forall t | t in ts :: |t| == c && Sum(t) < TWO_64
    ensures Sum(ThreadAves(ts)) == TotalMs(ThreadSums(ts), c)
  {
    hide MetricOf;
    if ts == [] {
    } else {
      assert ts[0] in ts && forall t | t in ts[1..] :: t in ts;
      AvesAreDurations(ts[1..], c);
      AveOfThread(ts[0]);
      assert ThreadAves(ts)[1..] == ThreadAves(ts[1..]) && ThreadSums(ts)[1..] == ThreadSums(ts[1..]);
    }
  }

  lemma AveOfThread(t: seq<nat>)
    requires t != [] && Sum(t) < TWO_64
    ensures MetricOf(t).ave == Sum(t) / |t|
  {
    assert U64(Sum(t)) == Sum(t);
    hide U64, Sum, Max, MinAfterZero;
  }

  /** When all threads have the same number of samples, the mean of means is the pooled mean or one less. */
  lemma MeanOfMeans(ts: seq<seq<nat>>, c: nat)
    requires ts != [] && c > 0 && forall t | t in ts :: |t| == c && Sum(t) < TWO_64
    ensures |Flatten(ts)| > 0
    ensures var mean, pooled := MergedOf(ts).ave / |ts|, Sum(Flatten(ts)) / |Flatten(ts)|;
            mean <= pooled <= mean + 1
  {
    hide Sum, MergedOf, MetricOf, ThreadAves, TotalMs, Flatten;
    var n := |ts|;
    FlattenLength(ts, c);
    AtLeastOnce(n, c);
    SumOfSums(ts);
    AvesAreDurations(ts, c);
    MergedAve(ts);
    DriftBounds(ThreadSums(ts), c);
    var total, sum := TotalMs(ThreadSums(ts), c), Sum(Flatten(ts));
    DivTwice(sum, c, n);
    DivMonotone(total, sum / c, n);
    DivMonotone(sum / c, total + n, n);
    ModStep(total, n);
  }

  // ---- Counts over all workers ----

  lemma {:induction false} FailedAppend(a: seq<Event>, b: seq<Event>)
    ensures FailedCount(a + b) == FailedCount(a) + FailedCount(b)
  {
    if b == [] {
      assert a + b == a;
    } else {
      var n := |b| - 1;
      assert (a + b)[..|a| + n] == a + b[..n];
      FailedAppend(a, b[..n]);
    }
  }

  lemma {:induction false} ConnectCountAppend(a: seq<Event>, b: seq<Event>, k: nat)
    requires k < 6
    ensures ConnectCount(a + b, k) == ConnectCount(a, k) + ConnectCount(b, k)
  {
    hide FindConnectType;
    if b == [] {
      assert a + b == a;
    } else {
      var n := |b| - 1;
      assert (a + b)[..|a| + n] == a + b[..n];
      ConnectCountAppend(a, b[..n], k);
    }
  }

  lemma ConnectAppend(a: seq<Event>, b: seq<Event>)
    ensures ConnectCounts(a + b) == AddAll(ConnectCounts(a), ConnectCounts(b))
  {
    hide ConnectCount;
    forall k | 0 <= k < 6 { ConnectCountAppend(a, b, k); }
  }

  lemma FlattenSnoc<T>(ps: seq<seq<T>>, i: nat)
    requires i < |ps|
    ensures Flatten(ps[..i + 1]) == Flatten(ps[..i]) + ps[i]
  {
    assert ps[..i + 1] == ps[..i] + [ps[i]];
    FlattenAppend(ps[..i], [ps[i]]);
    assert [ps[i]][1..] == [];
  }

  function SumApi(s: seq<ApiCounts>): ApiCounts {
    if s == [] then ApiCounts(0, 0, 0, 0) else AddApi(SumApi(s[..|s| - 1]), s[|s| - 1])
  }

  /** The four columns of the counts. */
  function RequestsOf(s: seq<ApiCounts>): (r: seq<nat>)
    ensures |r| == |s| && forall i | 0 <= i < |s| :: r[i] == s[i].requests
  {
    seq(|s|, i requires 0 <= i < |s| => s[i].requests)
  }

  function StartUsOf(s: seq<ApiCounts>): (r: seq<nat>)
    ensures |r| == |s| && forall i | 0 <= i < |s| :: r[i] == s[i].startUs
  {
    seq(|s|, i requires 0 <= i < |s| => s[i].startUs)
  }

  function StopUsOf(s: seq<ApiCounts>): (r: seq<nat>)
    ensures |r| == |s| && forall i | 0 <= i < |s| :: r[i] == s[i].stopUs
  {
    seq(|s|, i requires 0 <= i < |s| => s[i].stopUs)
  }

  function StopsOf(s: seq<ApiCounts>): (r: seq<nat>)
    ensures |r| == |s| && forall i | 0 <= i < |s| :: r[i] == s[i].stops
  {
    seq(|s|, i requires 0 <= i < |s| => s[i].stops)
  }

  /** Every field of the total is the sum of that field. */
  lemma {:induction false} SumApiExactly(s: seq<ApiCounts>)
    ensures SumApi(s).requests == Sum(RequestsOf(s)) && SumApi(s).startUs == Sum(StartUsOf(s))
    ensures SumApi(s).stopUs == Sum(StopUsOf(s)) && SumApi(s).stops == Sum(StopsOf(s))
  {
    hide Sum, RequestsOf, StartUsOf, StopUsOf, StopsOf;
    if s == [] {
      NothingCounted();
      assert RequestsOf([]) == StartUsOf([]) == StopUsOf([]) == StopsOf([]) == [];
    } else {
      var init, a := s[..|s| - 1], s[|s| - 1];
      SumApiExactly(init);
      assert RequestsOf(s) == RequestsOf(init) + [a.requests] && StartUsOf(s) == StartUsOf(init) + [a.startUs];
      assert StopUsOf(s) == StopUsOf(init) + [a.stopUs] && StopsOf(s) == StopsOf(init) + [a.stops];
      SumSnoc(RequestsOf(init), a.requests);
      SumSnoc(StartUsOf(init), a.startUs);
      SumSnoc(StopUsOf(init), a.stopUs);
      SumSnoc(StopsOf(init), a.stops);
    }
  }

  lemma SumApiSnoc(s: seq<ApiCounts>, i: nat)
    requires i < |s|
    ensures SumApi(s[..i + 1]) == AddApi(SumApi(s[..i]), s[i])
  {
    TakeTake(s, i);
  }

  lemma SumPrefix(s: seq<nat>, i: nat)
    requires i < |s|
    ensures Sum(s[..i + 1]) == Sum(s[..i]) + s[i]
  {
    assert s[..i + 1] == s[..i] + [s[i]];
    SumSnoc(s[..i], s[i]);
  }

  ghost function Apis(pa: seq<ParamStruct>): (r: seq<ApiCounts>)
    reads pa
    ensures |r| == |pa| && forall i | 0 <= i < |pa| :: r[i] == pa[i].api
  {
    seq(|pa|, i requires 0 <= i < |pa| reads pa => pa[i].api)
  }

  ghost function Durations(pa: seq<ParamStruct>): (r: seq<nat>)
    reads pa
    ensures |r| == |pa| && forall i | 0 <= i < |pa| :: r[i] == pa[i].audioAveDuration
  {
    seq(|pa|, i requires 0 <= i < |pa| reads pa => pa[i].audioAveDuration)
  }

  datatype Latencies = Latencies(started: Merged, first: Merged, ending: Merged, close: Merged)

  /** The totals that are plain sums; `audio` is divided by the number of workers in the end. */
  datatype Counts = Counts(failed: nat, buckets: seq<nat>, connect: seq<nat>, api: ApiCounts, audio: nat)

  ghost predicate LatenciesOf(t: Latencies, hs: seq<seq<Event>>) {
    && t.started == MergedOf(SamplesOf(hs, StartedTimes))
    && t.first == MergedOf(SamplesOf(hs, FirstTimes))
    && t.ending == MergedOf(SamplesOf(hs, EndTimes))
    && t.close == MergedOf(SamplesOf(hs, CloseTimes))
  }

  /** Every count is that of the events of all workers pooled. */
  ghost predicate CountsOf(t: Counts, hs: seq<seq<Event>>, apis: seq<ApiCounts>, durations: seq<nat>) {
    && t.failed == FailedCount(Flatten(hs))
    && t.buckets == Histogram(Flatten(SamplesOf(hs, FirstTimes)))
    && t.connect == ConnectCounts(Flatten(hs))
    && t.api == SumApi(apis)
    && t.audio == Sum(durations)
  }

  function AddLatencies(t: Latencies, started: Metric, first: Metric, ending: Metric, close: Metric): Latencies {
    Latencies(MergeStep(t.started, started), MergeStep(t.first, first), MergeStep(t.ending, ending),
              MergeStep(t.close, close))
  }

  lemma LatenciesStep(t: Latencies, hs: seq<seq<Event>>, i: nat)
    requires i < |hs| && LatenciesOf(t, hs[..i])
    ensures LatenciesOf(AddLatencies(t, MetricOf(Samples(hs[i], StartedTimes)), MetricOf(Samples(hs[i], FirstTimes)),
                                     MetricOf(Samples(hs[i], EndTimes)), MetricOf(Samples(hs[i], CloseTimes))),
                        hs[..i + 1])
  {
    hide MergedOf, MergeStep, MetricOf, Samples, SamplesOf, Flatten;
    MergeOne(hs, i, StartedTimes);
    MergeOne(hs, i, FirstTimes);
    MergeOne(hs, i, EndTimes);
    MergeOne(hs, i, CloseTimes);
  }

  lemma CountsStep(t: Counts, hs: seq<seq<Event>>, apis: seq<ApiCounts>, durations: seq<nat>, i: nat)
    requires i < |hs| == |apis| == |durations| && CountsOf(t, hs[..i], apis[..i], durations[..i])
    ensures |t.buckets| == 8 && |t.connect| == 6
    ensures CountsOf(Counts(t.failed + FailedCount(hs[i]),
                            AddAll(t.buckets, Histogram(Samples(hs[i], FirstTimes))),
                            AddAll(t.connect, ConnectCounts(hs[i])),
                            AddApi(t.api, apis[i]), t.audio + durations[i]),
                     hs[..i + 1], apis[..i + 1], durations[..i + 1])
  {
    hide FailedCount, Histogram, ConnectCounts, Samples, SamplesOf, SumApi, Sum, Flatten, AddAll, AddApi, MetricOf,
         MergeStep, MergedOf;
    MergeOne(hs, i, FirstTimes);
    HistogramAppend(Flatten(SamplesOf(hs[..i], FirstTimes)), Samples(hs[i], FirstTimes));
    FlattenSnoc(hs, i);
    FailedAppend(Flatten(hs[..i]), hs[i]);
    ConnectAppend(Flatten(hs[..i]), hs[i]);
    SumApiSnoc(apis, i);
    SumPrefix(durations, i);
  }

  /** The merge loop of `flowingSynthesizerMultFile`, and the divisions behind it. */
  method MergeAll(pa: seq<ParamStruct>) returns (latencies: Latencies, counts: Counts)
    requires |pa| > 0 && forall p | p in pa :: p.Valid()
    ensures TotalIs(latencies.started, SamplesOf(Histories(pa), StartedTimes))
    ensures TotalIs(latencies.first, SamplesOf(Histories(pa), FirstTimes))
    ensures TotalIs(latencies.ending, SamplesOf(Histories(pa), EndTimes))
    ensures TotalIs(latencies.close, SamplesOf(Histories(pa), CloseTimes))
    ensures CountsOf(counts.(audio := Sum(Durations(pa))), Histories(pa), Apis(pa), Durations(pa))
    ensures counts.audio == Sum(Durations(pa)) / |pa|
    ensures counts.api == ApiCounts(Sum(RequestsOf(Apis(pa))), Sum(StartUsOf(Apis(pa))),
                                    Sum(StopUsOf(Apis(pa))), Sum(StopsOf(Apis(pa))))
    ensures latencies.started.ave <= latencies.started.max && latencies.first.ave <= latencies.first.max
    ensures latencies.ending.ave <= latencies.ending.max && latencies.close.ave <= latencies.close.max
  {
    hide MergedOf, MergeStep, MetricOf, Samples, SamplesOf, Histogram, ConnectCounts, FailedCount, Flatten, Sum, SumApi,
         AudioMs, AudioAve, PacketSeen, AddAll, CountsOf, LatenciesOf, TotalIs, Averaged;
    ghost var hs, apis, durations := Histories(pa), Apis(pa), Durations(pa);
    var none := Merged(0, 0, 0, 0);
    latencies := Latencies(none, none, none, none);
    counts := Counts(0, [0, 0, 0, 0, 0, 0, 0, 0], [0, 0, 0, 0, 0, 0], ApiCounts(0, 0, 0, 0), 0);
    assert hs[..0] == [] && apis[..0] == [] && durations[..0] == [];
    MergeNone();
    for i := 0 to |pa|
      invariant LatenciesOf(latencies, hs[..i])
      invariant CountsOf(counts, hs[..i], apis[..i], durations[..i])
    {
      assert pa[i] in pa;
      LatenciesStep(latencies, hs, i);
      CountsStep(counts, hs, apis, durations, i);
      latencies := AddLatencies(latencies, pa[i].started, pa[i].first, pa[i].ending, pa[i].close);
      counts := Counts(counts.failed + pa[i].failedConsumed, AddAll(counts.buckets, pa[i].buckets),
                       AddAll(counts.connect, pa[i].connect), AddApi(counts.api, pa[i].api),
                       counts.audio + pa[i].audioAveDuration);
    }
    assert hs[..|pa|] == hs && apis[..|pa|] == apis && durations[..|pa|] == durations;
    MergedAll(latencies, counts, hs, apis, durations);
    latencies := Latencies(Averaged(latencies.started, |pa|), Averaged(latencies.first, |pa|),
                           Averaged(latencies.ending, |pa|), Averaged(latencies.close, |pa|));
    counts := counts.(audio := counts.audio / |pa|);
    TotalInOrder(latencies.started, SamplesOf(hs, StartedTimes));
    TotalInOrder(latencies.first, SamplesOf(hs, FirstTimes));
    TotalInOrder(latencies.ending, SamplesOf(hs, EndTimes));
    TotalInOrder(latencies.close, SamplesOf(hs, CloseTimes));
  }

  lemma MergedAll(latencies: Latencies, counts: Counts, hs: seq<seq<Event>>, apis: seq<ApiCounts>, durations: seq<nat>)
    requires |hs| > 0 && LatenciesOf(latencies, hs) && CountsOf(counts, hs, apis, durations)
    ensures TotalIs(Averaged(latencies.started, |hs|), SamplesOf(hs, StartedTimes))
    ensures TotalIs(Averaged(latencies.first, |hs|), SamplesOf(hs, FirstTimes))
    ensures TotalIs(Averaged(latencies.ending, |hs|), SamplesOf(hs, EndTimes))
    ensures TotalIs(Averaged(latencies.close, |hs|), SamplesOf(hs, CloseTimes))
    ensures counts.audio == Sum(durations)
    ensures counts.api == ApiCounts(Sum(RequestsOf(apis)), Sum(StartUsOf(apis)), Sum(StopUsOf(apis)), Sum(StopsOf(apis)))
  {
    SumApiExactly(apis);
    hide MergedOf, TotalIs, Averaged, Sum, SumApi;
    AveragedIsTotal(SamplesOf(hs, StartedTimes));
    AveragedIsTotal(SamplesOf(hs, FirstTimes));
    AveragedIsTotal(SamplesOf(hs, EndTimes));
    AveragedIsTotal(SamplesOf(hs, CloseTimes));
  }

  lemma MergeNone()
    ensures LatenciesOf(Latencies(Merged(0, 0, 0, 0), Merged(0, 0, 0, 0), Merged(0, 0, 0, 0), Merged(0, 0, 0, 0)), [])
    ensures CountsOf(Counts(0, [0, 0, 0, 0, 0, 0, 0, 0], [0, 0, 0, 0, 0, 0], ApiCounts(0, 0, 0, 0), 0), [], [], [])
  {
    NothingMerged();
    NothingCounted();
    hide MergedOf, MetricOf, Samples, Histogram, ConnectCounts, FailedCount, SumApi, Sum, Flatten;
    assert forall kind :: SamplesOf([], kind) == [];
  }

  lemma NothingCounted()
    ensures Flatten<Event>([]) == [] && Flatten<nat>([]) == [] && Sum([]) == 0 && SumApi([]) == ApiCounts(0, 0, 0, 0)
    ensures FailedCount([]) == 0 && Histogram([]) == [0, 0, 0, 0, 0, 0, 0, 0]
    ensures ConnectCounts([]) == [0, 0, 0, 0, 0, 0]
  {}
}
