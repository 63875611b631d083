/**
 Real-time pacing: how long a packet plays (`getAudioFileTimeMs`, demo/Linux/demo_utils.cpp) and
 how long the paced send loop of demo/Linux/speechRecognizerDemo.cpp takes.
 */
module Pacing {
  import opened Basics
  import opened DivMod
  import opened AudioSender

  const INT_MAX: int := 0x7FFF_FFFF

  predicate IsInt32(x: int) {
    -INT_MAX - 1 <= x <= INT_MAX
  }

  /** Integer division as C++ defines it: the quotient is truncated towards zero. */
  function TruncDiv(a: int, b: int): int
    requires b != 0
  {
    if (a >= 0) == (b > 0) then (if a >= 0 then a else -a) / (if b > 0 then b else -b)
    else -((if a >= 0 then a else -a) / (if b > 0 then b else -b))
  }

  /** Bytes per millisecond of 16-bit mono audio. */
  function BytesPerMs(sampleRate: int): int {
    TruncDiv(TruncDiv(sampleRate * 16 * 1, 8), 1000)
  }

  /** `None` stands for undefined behaviour: a division by zero or an overflow of `int`. */
  function AudioFileTimeMs(dataSize: int, sampleRate: int, compressRate: int): Option<int> {
    if !IsInt32(sampleRate * 16) || !IsInt32(dataSize * compressRate) || BytesPerMs(sampleRate) == 0 then None
    else Some(TruncDiv(dataSize * compressRate, BytesPerMs(sampleRate)) % 0x1_0000_0000)
  }

  /** `q` is the quotient of `a` and `b` without its fraction. */
  lemma TruncDivExactly(a: int, b: int)
    requires b != 0
    ensures var rest := a - TruncDiv(a, b) * b;
            Abs(rest) < Abs(b) && (a >= 0 ==> rest >= 0) && (a <= 0 ==> rest <= 0)
  {
    var q, r := DivideByHand(Abs(a), Abs(b));
    Negate(q, Abs(b));
  }

  function Abs(x: int): nat {
    if x >= 0 then x else -x
  }

  lemma Negate(q: int, y: int)
    ensures (-q) * y == -(q * y) == q * (-y)
    ensures (-q) * (-y) == q * y
  {}

  /** Two bytes a sample. */
  lemma BytesPerMsExactly(sampleRate: nat)
    ensures BytesPerMs(sampleRate) == sampleRate * 2 / 1000 == sampleRate / 500
  {}

  /** The duration is defined exactly from 500 samples a second on, of either sign, up to the overflow of `int`. */
  lemma TimeDefinedExactly(dataSize: int, sampleRate: int)
    requires 0 <= dataSize <= INT_MAX
    ensures AudioFileTimeMs(dataSize, sampleRate, 1).Some? <==>
            500 <= sampleRate <= 134_217_727 || -134_217_728 <= sampleRate <= -500
  {}

  predicate Supported(sampleRate: nat) {
    500 <= sampleRate <= 134_217_727
  }

  /** The playing time of `n` bytes. */
  function Ms(n: nat, bytesMs: nat): nat
    requires bytesMs > 0
  {
    n / bytesMs
  }

  /** A millisecond of 16-bit mono audio is `sampleRate / 500` bytes. */
  lemma TimeIsMs(n: nat, sampleRate: nat)
    requires 500 <= sampleRate <= 134_217_727 && n <= 2_147_483_647
    ensures Supported(sampleRate) && BytesPerMs(sampleRate) == sampleRate / 500 > 0
    ensures AudioFileTimeMs(n, sampleRate, 1) == Some(n / (sampleRate / 500))
    ensures AudioFileTimeMs(n, sampleRate, 1) == Some(Ms(n, BytesPerMs(sampleRate)))
  {
    BytesPerMsExactly(sampleRate);
    var b := BytesPerMs(sampleRate);
    QuotientSmaller(n, b);
    hide BytesPerMs;
    assert n * 1 == n && sampleRate * 16 <= INT_MAX;
  }

  // ---- Drift ----

  function TotalMs(sizes: seq<nat>, bytesMs: nat): nat
    requires bytesMs > 0
  {
    if sizes == [] then 0 else Ms(sizes[0], bytesMs) + TotalMs(sizes[1..], bytesMs)
  }

  /** The bytes whose playing time each packet rounds away. */
  function TotalRemainder(sizes: seq<nat>, bytesMs: nat): nat
    requires bytesMs > 0
  {
    if sizes == [] then 0 else sizes[0] % bytesMs + TotalRemainder(sizes[1..], bytesMs)
  }

  /** Timing the packets one by one loses exactly the rounded-away bytes. */
  lemma {:induction false} DriftExactly(sizes: seq<nat>, bytesMs: nat)
    requires bytesMs > 0
    ensures Ms(Sum(sizes), bytesMs) == TotalMs(sizes, bytesMs) + TotalRemainder(sizes, bytesMs) / bytesMs
    ensures Sum(sizes) % bytesMs == TotalRemainder(sizes, bytesMs) % bytesMs
  {
    var b := bytesMs;
    if sizes == [] {
      SmallMod(0, b);
    } else {
      var n, rest := sizes[0], sizes[1..];
      DriftExactly(rest, b);
      DivAdd(n, Sum(rest), b);
      DivAdd(n % b, TotalRemainder(rest, b), b);
      SmallMod(n % b, b);
    }
  }

  lemma {:induction false} RemainderBound(sizes: seq<nat>, bytesMs: nat)
    requires bytesMs > 0
    ensures TotalRemainder(sizes, bytesMs) <= |sizes| * (bytesMs - 1)
  {
    if sizes == [] {
    } else {
      RemainderBound(sizes[1..], bytesMs);
      assert |sizes| * (bytesMs - 1) == |sizes[1..]| * (bytesMs - 1) + (bytesMs - 1);
    }
  }

  /** Any split into k packets loses at most k - 1 milliseconds. */
  lemma DriftBounds(sizes: seq<nat>, bytesMs: nat)
    requires bytesMs > 0 && sizes != []
    ensures TotalMs(sizes, bytesMs) <= Ms(Sum(sizes), bytesMs) <= TotalMs(sizes, bytesMs) + |sizes| - 1
  {
    DriftExactly(sizes, bytesMs);
    RemainderBound(sizes, bytesMs);
    hide *;
    OneLess(|sizes|, bytesMs);
    DivBelow(TotalRemainder(sizes, bytesMs), |sizes|, bytesMs);
  }

  function Sizes(cs: seq<seq<byte>>): (r: seq<nat>)
    ensures |r| == |cs| && forall k | 0 <= k < |cs| :: r[k] == |cs[k]|
  {
    if cs == [] then [] else [|cs[0]|] + Sizes(cs[1..])
  }

  lemma {:induction false} SizesOfFlatten(cs: seq<seq<byte>>)
    ensures Sum(Sizes(cs)) == |Flatten(cs)|
  {
    if cs == [] {
    } else {
      SizesOfFlatten(cs[1..]);
      assert Sizes(cs)[1..] == Sizes(cs[1..]);
    }
  }

  /** Frames of whole milliseconds play exactly as long as the file. */
  lemma {:induction false} WholeFramesLoseNothing(s: seq<byte>, frame: nat, bytesMs: nat)
    requires bytesMs > 0 && frame > 0 && frame % bytesMs == 0
    ensures PlayMs(Chunks(s, frame), bytesMs) == Ms(|s|, bytesMs)
    decreases |s|
  {
    if |s| > frame {
      WholeFramesLoseNothing(s[frame..], frame, bytesMs);
      var cs := Chunks(s, frame);
      assert Sizes(cs)[1..] == Sizes(cs[1..]);
      DivAdd(frame, |s| - frame, bytesMs);
      SmallMod((|s| - frame) % bytesMs, bytesMs);
    } else if s != [] {
      assert Chunks(s, frame) == [s] && Sizes([s]) == [|s|];
      assert TotalMs([|s|], bytesMs) == Ms(|s|, bytesMs) + TotalMs([], bytesMs) by { assert [|s|][1..] == []; }
    } else {
      SmallMod(0, bytesMs);
    }
  }

  /** What the frames round away: the same from each full frame, and something from the last. */
  function FramesRemainder(size: nat, frame: nat, bytesMs: nat): nat
    requires frame > 0 && bytesMs > 0
  {
    size / frame * (frame % bytesMs) + size % frame % bytesMs
  }

  lemma RemainderStep(size: nat, frame: nat, bytesMs: nat)
    requires frame > 0 && bytesMs > 0
    ensures FramesRemainder(size + frame, frame, bytesMs) == frame % bytesMs + FramesRemainder(size, frame, bytesMs)
  {
    ModStep(size, frame);
    Distribute(size / frame, 1, frame % bytesMs);
  }

  lemma SmallRemainder(size: nat, frame: nat, bytesMs: nat)
    requires size < frame && bytesMs > 0
    ensures FramesRemainder(size, frame, bytesMs) == size % bytesMs
  {
    SmallMod(size, frame);
  }

  lemma RemainderCons(n: nat, rest: seq<nat>, bytesMs: nat)
    requires bytesMs > 0
    ensures TotalRemainder([n] + rest, bytesMs) == n % bytesMs + TotalRemainder(rest, bytesMs)
  {
    assert ([n] + rest)[1..] == rest;
  }

  lemma {:induction false} FramesRemainderIs(s: seq<byte>, frame: nat, bytesMs: nat)
    requires frame > 0 && bytesMs > 0
    ensures TotalRemainder(Sizes(Chunks(s, frame)), bytesMs) == FramesRemainder(|s|, frame, bytesMs)
    decreases |s|
  {
    if |s| < frame {
      SmallRemainder(|s|, frame, bytesMs);
      SmallMod(0, bytesMs);
      RemainderCons(|s|, [], bytesMs);
      assert s != [] ==> Sizes(Chunks(s, frame)) == [|s|] + [];
    } else {
      var rest := s[frame..];
      assert s == s[..frame] + rest;
      ChunksStep(s, frame, s[..frame], rest);
      assert Sizes(Chunks(s, frame)) == [frame] + Sizes(Chunks(rest, frame));
      hide Chunks, Sizes, FramesRemainder, TotalRemainder;
      FramesRemainderIs(rest, frame, bytesMs);
      RemainderStep(|rest|, frame, bytesMs);
      RemainderCons(frame, Sizes(Chunks(rest, frame)), bytesMs);
    }
  }

  /** The frames of a file play as long as the file exactly when less than a millisecond is rounded away. */
  lemma FramesExactly(s: seq<byte>, frame: nat, bytesMs: nat)
    requires bytesMs > 0 && frame > 0
    ensures PlayMs(Chunks(s, frame), bytesMs) == Ms(|s|, bytesMs) <==>
            |s| / frame * (frame % bytesMs) + |s| % frame % bytesMs < bytesMs
  {
    FramesRemainderIs(s, frame, bytesMs);
    hide Chunks, TotalRemainder;
    var cs := Chunks(s, frame);
    ChunksPartition(s, frame);
    SizesOfFlatten(cs);
    DriftExactly(Sizes(cs), bytesMs);
    ZeroQuotient(TotalRemainder(Sizes(cs), bytesMs), bytesMs);
  }

  // ---- The paced loop ----

  /** For packets of up to `n` bytes neither their size nor `sleepMs * 1000` overflows an `int`. */
  predicate Paceable(n: nat, sampleRate: nat)
    requires Supported(sampleRate)
  {
    n <= INT_MAX && 1000 * (n / (sampleRate / 500)) <= INT_MAX
  }

  /** Exactly what keeps the conversion of the size and the pause in microseconds defined. */
  lemma PaceableExactly(n: nat, sampleRate: nat)
    requires Supported(sampleRate)
    ensures Paceable(n, sampleRate) <==>
            n <= 2_147_483_647 &&
            var ms := AudioFileTimeMs(n, sampleRate, 1); ms.Some? && ms.value * 1000 <= 2_147_483_647
  {
    hide AudioFileTimeMs, BytesPerMs;
    if n <= 2_147_483_647 { TimeIsMs(n, sampleRate); }
  }

  lemma SmallerPaceable(n: nat, m: nat, sampleRate: nat)
    requires Supported(sampleRate) && Paceable(m, sampleRate) && n <= m
    ensures Paceable(n, sampleRate)
  {
    DivMonotone(n, m, sampleRate / 500);
  }

  lemma TotalMsSnoc(sizes: seq<nat>, n: nat, bytesMs: nat)
    requires bytesMs > 0
    ensures TotalMs(sizes + [n], bytesMs) == TotalMs(sizes, bytesMs) + Ms(n, bytesMs)
  {
    if sizes == [] {
      assert [n][1..] == [];
      assert [] + [n] == [n];
    } else {
      assert (sizes + [n])[1..] == sizes[1..] + [n];
      TotalMsSnoc(sizes[1..], n, bytesMs);
    }
  }

  /** The playing time of packets that are timed one by one. */
  function PlayMs(packets: seq<seq<byte>>, bytesMs: nat): nat
    requires bytesMs > 0
  {
    TotalMs(Sizes(packets), bytesMs)
  }

  lemma PlayMsSnoc(packets: seq<seq<byte>>, data: seq<byte>, bytesMs: nat)
    requires bytesMs > 0
    ensures PlayMs(packets + [data], bytesMs) == PlayMs(packets, bytesMs) + Ms(|data|, bytesMs)
    ensures PlayMs([], bytesMs) == 0
  {
    assert Sizes(packets + [data]) == Sizes(packets) + [|data|];
    TotalMsSnoc(Sizes(packets), |data|, bytesMs);
  }

  /** A packet takes as long as it plays or as its sending takes, whichever is longer, and the overhead. */
  function PacketUs(size: nat, bytesMs: nat, sendUs: nat, overhead: nat): nat
    requires bytesMs > 0
  {
    (if 1000 * (size / bytesMs) > sendUs then 1000 * (size / bytesMs) else sendUs) + overhead
  }

  function PacedUs(packets: seq<seq<byte>>, bytesMs: nat, sendUs: nat -> nat, overhead: nat -> nat): nat
    requires bytesMs > 0
  {
    if packets == [] then 0
    else
      var n := |packets| - 1;
      PacedUs(packets[..n], bytesMs, sendUs, overhead) + PacketUs(|packets[n]|, bytesMs, sendUs(n), overhead(n))
  }

  function SpentUs(sendUs: nat -> nat, n: nat): nat {
    if n == 0 then 0 else SpentUs(sendUs, n - 1) + sendUs(n - 1)
  }

  lemma PacedSnoc(packets: seq<seq<byte>>, data: seq<byte>, bytesMs: nat, sendUs: nat -> nat, overhead: nat -> nat)
    requires bytesMs > 0
    ensures var playUs, n := 1000 * (|data| / bytesMs), |packets|;
            PacedUs(packets + [data], bytesMs, sendUs, overhead) ==
            PacedUs(packets, bytesMs, sendUs, overhead) + overhead(n) + if playUs > sendUs(n) then playUs else sendUs(n)
    ensures PacedUs(packets + [data], bytesMs, sendUs, overhead) ==
            PacedUs(packets, bytesMs, sendUs, overhead) +
            PacketUs(|data|, bytesMs, sendUs(|packets|), overhead(|packets|))
    ensures PacedUs([], bytesMs, sendUs, overhead) == 0
  {
    assert (packets + [data])[..|packets|] == packets;
  }

  /** Pacing is no faster than real time, and no faster than the calls. */
  lemma {:induction false} NoFasterThanPlaying(packets: seq<seq<byte>>, bytesMs: nat, sendUs: nat -> nat,
                                               overhead: nat -> nat)
    requires bytesMs > 0
    ensures PacedUs(packets, bytesMs, sendUs, overhead) >= 1000 * PlayMs(packets, bytesMs)
    ensures PacedUs(packets, bytesMs, sendUs, overhead) >= SpentUs(sendUs, |packets|)
  {
    if packets == [] {
    } else {
      var n := |packets| - 1;
      assert packets == packets[..n] + [packets[n]];
      NoFasterThanPlaying(packets[..n], bytesMs, sendUs, overhead);
      hide PlayMs;
      PlayMsSnoc(packets[..n], packets[n], bytesMs);
    }
  }

  /** The state of the loop: the frames up to `pos` are accepted, and the clocks say what they took. */
  ghost predicate PacedUpTo(file: seq<byte>, frame: nat, bytesMs: nat, pos: nat, accepted: seq<seq<byte>>,
                            sendRet: nat -> int, sendUs: nat -> nat, overhead: nat -> nat, elapsedUs: nat, spentUs: nat)
    requires frame > 0 && bytesMs > 0
  {
    && pos <= |file|
    && accepted + Chunks(file[pos..], frame) == Chunks(file, frame)
    && (forall k: nat | k < |accepted| :: sendRet(k) >= 0)
    && elapsedUs == PacedUs(accepted, bytesMs, sendUs, overhead)
    && spentUs == SpentUs(sendUs, |accepted|)
  }

  lemma StartPacing(file: seq<byte>, frame: nat, bytesMs: nat, sendRet: nat -> int, sendUs: nat -> nat,
                    overhead: nat -> nat)
    requires frame > 0 && bytesMs > 0
    ensures PacedUpTo(file, frame, bytesMs, 0, [], sendRet, sendUs, overhead, 0, 0)
  {
    assert file[0..] == file;
    assert [] + Chunks(file, frame) == Chunks(file, frame);
  }

  lemma PacedChunk(file: seq<byte>, frame: nat, bytesMs: nat, pos: nat, accepted: seq<seq<byte>>,
                   sendRet: nat -> int, sendUs: nat -> nat, overhead: nat -> nat, elapsedUs: nat, spentUs: nat,
                   data: seq<byte>)
    requires frame > 0 && bytesMs > 0
    requires PacedUpTo(file, frame, bytesMs, pos, accepted, sendRet, sendUs, overhead, elapsedUs, spentUs)
    requires 0 < |data| <= frame && pos + |data| <= |file| && data == file[pos..pos + |data|]
    requires |data| < frame ==> pos + |data| == |file|
    ensures |accepted| < |Chunks(file, frame)|
    ensures sendRet(|accepted|) >= 0 ==>
              PacedUpTo(file, frame, bytesMs, pos + |data|, accepted + [data], sendRet, sendUs, overhead,
                        elapsedUs + PacketUs(|data|, bytesMs, sendUs(|accepted|), overhead(|accepted|)),
                        spentUs + sendUs(|accepted|))
  {
    hide Chunks, PacedUs, PacketUs, SpentUs;
    ChunksForward(file, frame, pos, pos + |data|, accepted, data);
    PacedSnoc(accepted, data, bytesMs, sendUs, overhead);
    SpentSnoc(sendUs, |accepted|);
  }

  lemma PacedInTime(file: seq<byte>, frame: nat, bytesMs: nat, pos: nat, accepted: seq<seq<byte>>,
                    sendRet: nat -> int, sendUs: nat -> nat, overhead: nat -> nat, elapsedUs: nat, spentUs: nat)
    requires frame > 0 && bytesMs > 0
    requires PacedUpTo(file, frame, bytesMs, pos, accepted, sendRet, sendUs, overhead, elapsedUs, spentUs)
    ensures accepted <= Chunks(file, frame) && forall k: nat | k < |accepted| :: sendRet(k) >= 0
    ensures elapsedUs == PacedUs(accepted, bytesMs, sendUs, overhead)
    ensures spentUs == SpentUs(sendUs, |accepted|) <= elapsedUs && elapsedUs >= 1000 * PlayMs(accepted, bytesMs)
    ensures pos == |file| ==> accepted == Chunks(file, frame)
    ensures pos == |file| && frame % bytesMs == 0 ==> elapsedUs >= 1000 * (|file| / bytesMs)
  {
    hide Chunks, PlayMs, PacedUs, SpentUs;
    if pos == |file| { AllPaced(file, frame, accepted, pos); }
    InRealTime(file, frame, bytesMs, accepted, sendUs, overhead);
  }

  /**
   The send loop with pacing on, against a virtual clock in microseconds.  `sendUs(k)` is what the
   k-th `sendAudio` is measured to take and `overhead(k)` everything else, over-sleeping included.
   */
  method PacedSendLoop(fs: Ifstream, frameSize: nat, sampleRate: nat, sendRet: nat -> int,
                       sendUs: nat -> nat, overhead: nat -> nat)
    returns (accepted: seq<seq<byte>>, failed: bool, elapsedUs: nat, sendAudioUs: nat)
    requires fs.Rewound() && frameSize > 0 && Supported(sampleRate)
    requires Paceable(if frameSize < |fs.file| then frameSize else |fs.file|, sampleRate)
    modifies fs
    ensures accepted <= Chunks(fs.file, frameSize)
    ensures !failed ==> accepted == Chunks(fs.file, frameSize)
    ensures forall k: nat | k < |accepted| :: sendRet(k) >= 0
    ensures failed ==> |accepted| < |Chunks(fs.file, frameSize)| && sendRet(|accepted|) < 0
    ensures failed <==> exists k: nat :: k < |Chunks(fs.file, frameSize)| && sendRet(k) < 0
    ensures elapsedUs == PacedUs(accepted, sampleRate / 500, sendUs, overhead) +
                         if failed then sendUs(|accepted|) else 0
    ensures sendAudioUs == SpentUs(sendUs, |accepted|)
    ensures elapsedUs >= 1000 * PlayMs(accepted, sampleRate / 500)
    ensures elapsedUs >= sendAudioUs
    ensures !failed && frameSize % (sampleRate / 500) == 0 ==> elapsedUs >= 1000 * (|fs.file| / (sampleRate / 500))
  {
    hide Chunks, PacedUpTo, PlayMs, PacedUs, PacketUs, Paceable, SpentUs;
    accepted, failed, elapsedUs, sendAudioUs := [], false, 0, 0;
    ghost var file, b := fs.file, sampleRate / 500;
    var sendAudioCnt := 0;
    StartPacing(file, frameSize, b, sendRet, sendUs, overhead);
    while !fs.eofbit
      invariant fs.Valid() && fs.eofbit == fs.failbit && !failed && (fs.eofbit ==> fs.pos == |file|)
      invariant sendAudioCnt == |accepted|
      invariant PacedUpTo(file, frameSize, b, fs.pos, accepted, sendRet, sendUs, overhead, elapsedUs, sendAudioUs)
      decreases |file| - fs.pos, !fs.eofbit
    {
      ghost var before := fs.pos;
      var data := fs.Read(frameSize);
      var nlen := fs.gcount;
      if nlen == 0 {
        continue;
      }
      PacedChunk(file, frameSize, b, before, accepted, sendRet, sendUs, overhead, elapsedUs, sendAudioUs, data);
      var ret := sendRet(sendAudioCnt);
      if ret < 0 {
        PacedInTime(file, frameSize, b, before, accepted, sendRet, sendUs, overhead, elapsedUs, sendAudioUs);
        failed := true;
        elapsedUs := elapsedUs + sendUs(sendAudioCnt);
        return;
      }
      var tmpUs := sendUs(sendAudioCnt);
      sendAudioUs := sendAudioUs + tmpUs;
      SmallerPaceable(nlen, if frameSize < |file| then frameSize else |file|, sampleRate);
      var packetUs := PaceOne(nlen, sampleRate, tmpUs, overhead(sendAudioCnt));
      elapsedUs := elapsedUs + packetUs;
      accepted := accepted + [data];
      sendAudioCnt := sendAudioCnt + 1;
    }
    PacedInTime(file, frameSize, b, fs.pos, accepted, sendRet, sendUs, overhead, elapsedUs, sendAudioUs);
  }

  lemma AllPaced(file: seq<byte>, frame: nat, accepted: seq<seq<byte>>, pos: nat)
    requires frame > 0 && pos == |file| && accepted + Chunks(file[pos..], frame) == Chunks(file, frame)
    ensures accepted == Chunks(file, frame)
  {
    assert file[pos..] == [];
    EmptyChunks(frame);
  }

  /** What the clock says is at least what plays; frames of whole milliseconds play as long as the file. */
  lemma InRealTime(file: seq<byte>, frame: nat, bytesMs: nat, accepted: seq<seq<byte>>,
                   sendUs: nat -> nat, overhead: nat -> nat)
    requires frame > 0 && bytesMs > 0
    ensures PacedUs(accepted, bytesMs, sendUs, overhead) >= 1000 * PlayMs(accepted, bytesMs)
    ensures PacedUs(accepted, bytesMs, sendUs, overhead) >= SpentUs(sendUs, |accepted|)
    ensures accepted == Chunks(file, frame) && frame % bytesMs == 0 ==>
              PacedUs(accepted, bytesMs, sendUs, overhead) >= 1000 * (|file| / bytesMs)
  {
    hide Chunks, PlayMs, PacedUs, SpentUs;
    NoFasterThanPlaying(accepted, bytesMs, sendUs, overhead);
    if frame % bytesMs == 0 { WholeFramesLoseNothing(file, frame, bytesMs); }
  }

  lemma SpentSnoc(sendUs: nat -> nat, n: nat)
    ensures SpentUs(sendUs, n + 1) == SpentUs(sendUs, n) + sendUs(n) && SpentUs(sendUs, 0) == 0
  {}

  /** What one packet takes: its sending, the pause, and the overhead. */
  method PaceOne(size: nat, sampleRate: nat, tmpUs: nat, overhead: nat) returns (us: nat)
    requires Supported(sampleRate) && Paceable(size, sampleRate)
    ensures var playUs := 1000 * (size / (sampleRate / 500));
            us == overhead + if playUs > tmpUs then playUs else tmpUs
    ensures us == PacketUs(size, sampleRate / 500, tmpUs, overhead)
  {
    us := tmpUs;
    var sleepMs := SendAudioSleepTime(size, sampleRate);
    if sleepMs * 1000 > tmpUs {
      us := us + (sleepMs * 1000 - tmpUs);
    }
    us := us + overhead;
  }

  /** `getSendAudioSleepTime`, for a packet that can be paced: the product with 1000 does not overflow. */
  method SendAudioSleepTime(size: nat, sampleRate: nat) returns (sleepMs: nat)
    requires Supported(sampleRate) && Paceable(size, sampleRate)
    ensures sleepMs == size / (sampleRate / 500) && IsInt32(sleepMs * 1000)
  {
    hide AudioFileTimeMs, BytesPerMs;
    TimeIsMs(size, sampleRate);
    sleepMs := AudioFileTimeMs(size, sampleRate, 1).value;
  }

  lemma EmptyChunks(frame: nat)
    requires frame > 0
    ensures Chunks([], frame) == []
  {}
}
