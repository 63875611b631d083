/**
 Feeding an audio file to a request in frames: the `std::ifstream` operations the demos use,
 and the send loop of demo/Linux/funAsrTranscriberDemo.cpp with its looping-file mode.
 */
module AudioSender {
  import opened Basics
  import opened DivMod

  // ---- std::ifstream (section 27.7.2.3 of ISO/IEC 14882:2011) ----

  class Ifstream {
    const file: seq<byte>
    var pos: nat
    var eofbit: bool
    var failbit: bool
    var gcount: nat

    constructor (file: seq<byte>)
      ensures this.file == file && Valid() && Rewound() && gcount == 0
    {
      this.file := file;
      pos, eofbit, failbit, gcount := 0, false, false, 0;
    }

    predicate Valid()
      reads this
    {
      pos <= |file|
    }

    /** The state that `clear(); seekg(0, beg);` establishes. */
    predicate Rewound()
      reads this
    {
      pos == 0 && !eofbit && !failbit
    }

    /** `read(data, n)`: a read that hits the end sets both bits, a read on a bad stream does nothing. */
    method Read(n: nat) returns (data: seq<byte>)
      requires Valid()
      modifies this
      ensures Valid() && gcount == |data|
      ensures old(eofbit || failbit) ==>
                data == [] && failbit && pos == old(pos) && eofbit == old(eofbit)
      ensures !old(eofbit || failbit) ==>
                && |data| == (if n <= |file| - old(pos) then n else |file| - old(pos))
                && pos == old(pos) + |data| && data == file[old(pos)..pos]
                && eofbit == failbit == (|data| < n)
    {
      if eofbit || failbit {
        failbit, gcount, data := true, 0, [];
        return;
      }
      var left := |file| - pos;
      gcount := if n <= left then n else left;
      data := file[pos..pos + gcount];
      pos := pos + gcount;
      if gcount < n {
        eofbit, failbit := true, true;
      }
    }

    method Clear()
      requires Valid()
      modifies this
      ensures Valid() && !eofbit && !failbit && pos == old(pos)
    {
      eofbit, failbit := false, false;
    }

    /** `seekg(0, std::ios::beg)`: clears `eofbit` first, and moves only if the stream has not failed. */
    method SeekBegin()
      requires Valid()
      modifies this
      ensures Valid() && !eofbit && failbit == old(failbit)
      ensures pos == if old(failbit) then old(pos) else 0
    {
      eofbit := false;
      if !failbit {
        pos := 0;
      }
    }
  }

  // ---- What is to be sent ----

  /** The file cut into frames; only the last one can be shorter. */
  function Chunks(s: seq<byte>, frame: nat): seq<seq<byte>>
    requires frame > 0
  {
    if s == [] then []
    else if |s| <= frame then [s]
    else [s[..frame]] + Chunks(s[frame..], frame)
  }

  /** The last frame is full. */
  predicate Aligned(s: seq<byte>, frame: nat)
    requires frame > 0
  {
    if |s| < frame then s == [] else Aligned(s[frame..], frame)
  }

  lemma {:induction false} AlignedIsMultiple(s: seq<byte>, frame: nat)
    requires frame > 0
    ensures Aligned(s, frame) <==> |s| % frame == 0
    decreases |s|
  {
    if |s| >= frame {
      AlignedIsMultiple(s[frame..], frame);
      ModStep(|s| - frame, frame);
    } else {
      SmallMod(|s|, frame);
    }
  }

  lemma {:induction false} ChunksCount(s: seq<byte>, frame: nat)
    requires frame > 0
    ensures |Chunks(s, frame)| == (|s| + frame - 1) / frame
    decreases |s|
  {
    if |s| > frame {
      ChunksCount(s[frame..], frame);
      ModStep(|s| - 1, frame);
    } else if s != [] {
      DivModUnique(|s| + frame - 1, frame, 1, |s| - 1);
    } else {
      SmallMod(frame - 1, frame);
    }
  }

  lemma {:induction false} ChunksSizes(s: seq<byte>, frame: nat)
    requires frame > 0
    ensures forall k | 0 <= k < |Chunks(s, frame)| - 1 :: |Chunks(s, frame)[k]| == frame
    ensures s != [] ==> Chunks(s, frame) != [] && 0 < |Chunks(s, frame)[|Chunks(s, frame)| - 1]| <= frame
    decreases |s|
  {
    if |s| <= frame {
    } else {
      var cs, rest := Chunks(s, frame), Chunks(s[frame..], frame);
      assert cs == [s[..frame]] + rest;
      ChunksSizes(s[frame..], frame);
      hide Chunks;
      assert forall k | 0 < k < |cs| :: cs[k] == rest[k - 1];
    }
  }

  lemma {:induction false} ChunksFlatten(s: seq<byte>, frame: nat)
    requires frame > 0
    ensures Flatten(Chunks(s, frame)) == s
    decreases |s|
  {
    if |s| <= frame {
    } else {
      ChunksFlatten(s[frame..], frame);
    }
  }

  /** The frames partition the file, there are ceil(|s| / frame) of them, and all but the last are full. */
  lemma ChunksPartition(s: seq<byte>, frame: nat)
    requires frame > 0
    ensures Flatten(Chunks(s, frame)) == s
    ensures |Chunks(s, frame)| == (|s| + frame - 1) / frame
    ensures forall k | 0 <= k < |Chunks(s, frame)| - 1 :: |Chunks(s, frame)[k]| == frame
    ensures s != [] ==> Chunks(s, frame) != [] && 0 < |Chunks(s, frame)[|Chunks(s, frame)| - 1]| <= frame
  {
    hide Chunks, Flatten;
    ChunksFlatten(s, frame);
    ChunksCount(s, frame);
    ChunksSizes(s, frame);
  }

  /** The first frame of what is left. */
  lemma ChunksStep(s: seq<byte>, frame: nat, data: seq<byte>, rest: seq<byte>)
    requires frame > 0 && s == data + rest && data != [] && |data| <= frame
    requires |data| < frame ==> rest == []
    ensures Chunks(s, frame) == [data] + Chunks(rest, frame)
    ensures Aligned(s, frame) == (|data| == frame && Aligned(rest, frame))
  {
    if |s| > frame {
      assert s[..frame] == data && s[frame..] == rest;
    } else {
      assert s == data;
      assert |data| == frame ==> s[frame..] == rest;
    }
  }

  lemma ChunksForward(file: seq<byte>, frame: nat, before: nat, after: nat, done: seq<seq<byte>>, data: seq<byte>)
    requires frame > 0 && before < after <= |file| && data == file[before..after] && |data| <= frame
    requires |data| < frame ==> after == |file|
    requires done + Chunks(file[before..], frame) == Chunks(file, frame)
    ensures done + [data] + Chunks(file[after..], frame) == Chunks(file, frame)
    ensures |done| < |Chunks(file, frame)|
  {
    hide Chunks;
    assert file[before..] == data + file[after..];
    ChunksStep(file[before..], frame, data, file[after..]);
  }

  // ---- A file that is sent over and over ----

  /** `a` is a prefix of the infinite repetition of `unit`. */
  predicate LoopedPrefix<T(==)>(a: seq<T>, unit: seq<T>)
    requires unit != []
  {
    if |a| <= |unit| then a <= unit else unit <= a && LoopedPrefix(a[|unit|..], unit)
  }

  lemma {:induction false} LoopedPrefixAt<T>(a: seq<T>, unit: seq<T>, i: nat)
    requires unit != [] && LoopedPrefix(a, unit) && i < |a|
    ensures a[i] == unit[i % |unit|]
    decreases |a|
  {
    if i < |unit| {
      SmallMod(i, |unit|);
    } else {
      LoopedPrefixAt(a[|unit|..], unit, i - |unit|);
      ModStep(i - |unit|, |unit|);
    }
  }

  lemma {:induction false} LoopedPrefixFrom<T>(a: seq<T>, unit: seq<T>)
    requires unit != [] && forall i | 0 <= i < |a| :: a[i] == unit[i % |unit|]
    ensures LoopedPrefix(a, unit)
    decreases |a|
  {
    var n := |unit|;
    forall i | 0 <= i < |a| && i < n
      ensures a[i] == unit[i]
    {
      SmallMod(i, n);
    }
    if |a| <= n {
    } else {
      forall i | 0 <= i < |a| - n
        ensures a[n..][i] == unit[i % n]
      {
        ModStep(i, n);
      }
      LoopedPrefixFrom(a[n..], unit);
    }
  }

  function Repeat<T>(unit: seq<T>, times: nat): seq<T> {
    if times == 0 then [] else unit + Repeat(unit, times - 1)
  }

  lemma {:induction false} RepeatSnoc<T>(unit: seq<T>, times: nat)
    ensures Repeat(unit, times) + unit == Repeat(unit, times + 1)
  {
    if times == 0 {
    } else {
      RepeatSnoc(unit, times - 1);
      assert unit + Repeat(unit, times - 1) + unit == unit + (Repeat(unit, times - 1) + unit);
    }
  }

  lemma {:induction false} RepeatIsLooped<T>(unit: seq<T>, times: nat, part: seq<T>)
    requires unit != [] && part <= unit
    ensures LoopedPrefix(Repeat(unit, times) + part, unit)
  {
    if times > 0 {
      RepeatIsLooped(unit, times - 1, part);
      assert Repeat(unit, times) + part == unit + (Repeat(unit, times - 1) + part);
    } else {
      assert Repeat(unit, 0) + part == part;
    }
  }

  lemma {:induction false} FlattenRepeat(cs: seq<seq<byte>>, times: nat)
    ensures Flatten(Repeat(cs, times)) == Repeat(Flatten(cs), times)
  {
    if times == 0 {
    } else {
      FlattenRepeat(cs, times - 1);
      FlattenAppend(cs, Repeat(cs, times - 1));
    }
  }

  lemma {:induction false} RepeatLength<T>(unit: seq<T>, times: nat)
    ensures |Repeat(unit, times)| == times * |unit|
  {
    if times == 0 {
    } else {
      RepeatLength(unit, times - 1);
      assert times * |unit| == |unit| + (times - 1) * |unit|;
    }
  }

  // ---- The loop ----

  class SendCounters {
    var audioFileDataUsedBytes: nat
    var sendConsumed: nat
  }

  datatype LoopEnd = Finished | SendFailed | Interrupted | StillRunning

  /** What `audioFileDataUsedBytes` holds after `total` accepted bytes in looping mode. */
  function UsedWhenLooping(file: seq<byte>, frame: nat, total: nat): nat
    requires frame > 0 && file != []
  {
    if Aligned(file, frame) then total else total % |file|
  }

  /** The counter is the number of bytes of the current pass, except for aligned files after the first pass. */
  lemma UsedIsCurrentPassExactly(file: seq<byte>, frame: nat, total: nat)
    requires frame > 0 && file != []
    ensures UsedWhenLooping(file, frame, total) == total % |file| <==>
            |file| % frame != 0 || total < |file|
    ensures UsedWhenLooping(file, frame, total) == if |file| % frame == 0 then total else total % |file|
  {
    AlignedIsMultiple(file, frame);
    if total < |file| {
      SmallMod(total, |file|);
    }
  }

  ghost predicate Accepted(file: seq<byte>, frame: nat, looping: bool, accepted: seq<seq<byte>>)
    requires frame > 0
  {
    if !looping then accepted <= Chunks(file, frame)
    else if file == [] then accepted == []
    else Chunks(file, frame) != [] && LoopedPrefix(accepted, Chunks(file, frame))
         && LoopedPrefix(Flatten(accepted), file)
  }

  ghost predicate Responses(sendRet: nat -> int, running: nat -> bool, sent: nat, end: LoopEnd) {
    && (forall k: nat | k < sent :: sendRet(k) >= 0)
    && (forall k: nat | k + 1 < sent :: running(k))
    && (end.SendFailed? ==> sendRet(sent) < 0)
    && (end.Interrupted? <==> sent > 0 && !running(sent - 1))
  }

  /**
   `passes` passes are complete, the chunks of `part` have been sent in the current one up to `pos`,
   and `used` is what the counter holds.
   */
  ghost predicate InPass(file: seq<byte>, frame: nat, pos: nat, passes: nat, part: seq<seq<byte>>,
                         accepted: seq<seq<byte>>, used: nat)
    requires frame > 0
  {
    && pos <= |file|
    && accepted == Repeat(Chunks(file, frame), passes) + part
    && part + Chunks(file[pos..], frame) == Chunks(file, frame)
    && Flatten(part) == file[..pos]
    && (passes > 0 ==> file != [])
    && used == pos + if Aligned(file, frame) then passes * |file| else 0
  }

  lemma PassStart(file: seq<byte>, frame: nat)
    requires frame > 0
    ensures InPass(file, frame, 0, 0, [], [], 0)
  {
    assert file[0..] == file;
  }

  lemma PassRead(file: seq<byte>, frame: nat, pos: nat, passes: nat, part: seq<seq<byte>>,
                 accepted: seq<seq<byte>>, used: nat, data: seq<byte>)
    requires frame > 0 && InPass(file, frame, pos, passes, part, accepted, used)
    requires 0 < |data| <= frame && pos + |data| <= |file| && data == file[pos..pos + |data|]
    requires |data| < frame ==> pos + |data| == |file|
    ensures InPass(file, frame, pos + |data|, passes, part + [data], accepted + [data], used + |data|)
    ensures Aligned(file[pos..], frame) == (|data| == frame && Aligned(file[pos + |data|..], frame))
  {
    hide Aligned, Chunks, Repeat;
    assert file[pos..] == data + file[pos + |data|..];
    ChunksStep(file[pos..], frame, data, file[pos + |data|..]);
    FlattenAppend(part, [data]);
  }

  lemma PassWrap(file: seq<byte>, frame: nat, passes: nat, part: seq<seq<byte>>,
                 accepted: seq<seq<byte>>, used: nat)
    requires frame > 0 && file != [] && InPass(file, frame, |file|, passes, part, accepted, used)
    ensures InPass(file, frame, 0, passes + 1, [], accepted, if Aligned(file, frame) then used else 0)
  {
    hide Aligned, Repeat;
    RepeatSnoc(Chunks(file, frame), passes);
    assert file[0..] == file;
    assert passes * |file| + |file| == (passes + 1) * |file|;
  }

  lemma PassTotals(file: seq<byte>, frame: nat, pos: nat, passes: nat, part: seq<seq<byte>>,
                   accepted: seq<seq<byte>>, used: nat)
    requires frame > 0 && InPass(file, frame, pos, passes, part, accepted, used)
    ensures |Flatten(accepted)| == passes * |file| + pos
    ensures Flatten(accepted) == Repeat(file, passes) + file[..pos]
    ensures part <= Chunks(file, frame)
  {
    hide Aligned, Chunks;
    ChunksPartition(file, frame);
    FlattenAppend(Repeat(Chunks(file, frame), passes), part);
    FlattenRepeat(Chunks(file, frame), passes);
    RepeatLength(file, passes);
  }

  lemma PassConclude(file: seq<byte>, frame: nat, pos: nat, passes: nat, part: seq<seq<byte>>,
                     accepted: seq<seq<byte>>, used: nat, looping: bool)
    requires frame > 0 && InPass(file, frame, pos, passes, part, accepted, used)
    requires !looping ==> passes == 0
    ensures Accepted(file, frame, looping, accepted)
    ensures !looping || file == [] ==> used == |Flatten(accepted)|
    ensures looping && file != [] && (Aligned(file, frame) || pos < |file|) ==>
              used == UsedWhenLooping(file, frame, |Flatten(accepted)|)
    ensures !looping && pos == |file| ==> accepted == Chunks(file, frame)
    ensures |part| <= |Chunks(file, frame)|
  {
    hide Aligned, Flatten, LoopedPrefix;
    PassTotals(file, frame, pos, passes, part, accepted, used);
    if file != [] {
      RepeatIsLooped(Chunks(file, frame), passes, part);
      RepeatIsLooped(file, passes, file[..pos]);
      if pos < |file| {
        DivModUnique(passes * |file| + pos, |file|, passes, pos);
      }
    }
  }

  /**
   The state of the loop after `observed` reads: the stream stands at `pos`, with `eof` set or not,
   and `used` is what the counter holds.
   */
  ghost predicate Sending(file: seq<byte>, frame: nat, loopFile: bool, pos: nat, eof: bool, passes: nat,
                          part: seq<seq<byte>>, accepted: seq<seq<byte>>, used: nat, observed: nat)
    requires frame > 0
  {
    && InPass(file, frame, pos, passes, part, accepted, used)
    && (eof ==> !loopFile && pos == |file|)
    && (!eof ==> Aligned(file[pos..], frame) == Aligned(file, frame))
    && (!loopFile ==> passes == 0 && |accepted| == |part| && observed <= |accepted| + if eof then 1 else 0)
    && (loopFile && file == [] ==> accepted == [])
    && (loopFile && file != [] ==> observed <= 2 * |accepted| + if pos == 0 then 1 else 0)
  }

  lemma StartSending(file: seq<byte>, frame: nat, loopFile: bool)
    requires frame > 0
    ensures Sending(file, frame, loopFile, 0, false, 0, [], [], 0, 0)
  {
    PassStart(file, frame);
    assert file[0..] == file;
  }

  /** A read that finds nothing: at the end of the file, where the looping sender rewinds. */
  lemma SentNothing(file: seq<byte>, frame: nat, loopFile: bool, passes: nat, part: seq<seq<byte>>,
                    accepted: seq<seq<byte>>, used: nat, observed: nat)
    returns (passes': nat, part': seq<seq<byte>>)
    requires frame > 0 && Sending(file, frame, loopFile, |file|, false, passes, part, accepted, used, observed)
    ensures Sending(file, frame, loopFile, if loopFile then 0 else |file|, !loopFile, passes', part', accepted,
                    used, observed + 1)
  {
    hide InPass;
    passes', part' := passes, part;
    assert file[|file|..] == [];
    EmptyAligned(frame);
    assert file[0..] == file;
    if loopFile && file != [] {
      PassWrap(file, frame, passes, part, accepted, used);
      passes', part' := passes + 1, [];
    }
  }

  /** A chunk that is accepted; the looping sender rewinds if it is short. */
  lemma SentChunk(file: seq<byte>, frame: nat, loopFile: bool, pos: nat, passes: nat, part: seq<seq<byte>>,
                  accepted: seq<seq<byte>>, used: nat, observed: nat, data: seq<byte>)
    returns (passes': nat, part': seq<seq<byte>>)
    requires frame > 0 && Sending(file, frame, loopFile, pos, false, passes, part, accepted, used, observed)
    requires 0 < |data| <= frame && pos + |data| <= |file| && data == file[pos..pos + |data|]
    requires |data| < frame ==> pos + |data| == |file|
    ensures var eof, after := |data| < frame, pos + |data|;
            if loopFile && eof
            then Sending(file, frame, loopFile, 0, false, passes', part', accepted + [data], 0, observed + 1)
            else Sending(file, frame, loopFile, after, eof, passes', part', accepted + [data], used + |data|,
                         observed + 1)
  {
    hide InPass, Aligned, Chunks;
    PassRead(file, frame, pos, passes, part, accepted, used, data);
    passes', part' := passes, part + [data];
    if loopFile && |data| < frame {
      PassWrap(file, frame, passes', part', accepted + [data], used + |data|);
      passes', part' := passes + 1, [];
      assert file[0..] == file;
    }
  }

  lemma ConcludeSending(file: seq<byte>, frame: nat, loopFile: bool, pos: nat, eof: bool, passes: nat,
                        part: seq<seq<byte>>, accepted: seq<seq<byte>>, used: nat, observed: nat)
    requires frame > 0 && Sending(file, frame, loopFile, pos, eof, passes, part, accepted, used, observed)
    ensures Accepted(file, frame, loopFile, accepted)
    ensures !loopFile || file == [] ==> used == |Flatten(accepted)|
    ensures loopFile && file != [] ==>
              used == if |file| % frame == 0 then |Flatten(accepted)| else |Flatten(accepted)| % |file|
    ensures eof ==> !loopFile && accepted == Chunks(file, frame)
    ensures !loopFile ==> observed <= |Chunks(file, frame)| + 1
    ensures loopFile && file != [] ==> observed <= 2 * |accepted| + 1
  {
    hide InPass, Accepted, UsedWhenLooping, Flatten, Chunks;
    if file != [] { UsedIsCurrentPassExactly(file, frame, |Flatten(accepted)|); }
    PassConclude(file, frame, pos, passes, part, accepted, used, loopFile);
    if pos == |file| {
      assert file[pos..] == [];
      EmptyAligned(frame);
    } else {
      PassInside(file, frame, pos, passes, part, accepted, used);
    }
  }

  lemma PassInside(file: seq<byte>, frame: nat, pos: nat, passes: nat, part: seq<seq<byte>>,
                   accepted: seq<seq<byte>>, used: nat)
    requires frame > 0 && InPass(file, frame, pos, passes, part, accepted, used)
    ensures pos <= |file|
  {}

  /** After the k-th chunk the loop ends. */
  predicate Stops(sendRet: nat -> int, running: nat -> bool, k: nat) {
    sendRet(k) < 0 || !running(k)
  }

  lemma RespondedTo(sendRet: nat -> int, running: nat -> bool, sent: nat, end: LoopEnd)
    requires Responses(sendRet, running, sent, end)
    ensures end.StillRunning? ==> forall k: nat | Stops(sendRet, running, k) :: k >= sent
    ensures end.SendFailed? || end.Interrupted? ==> exists k: nat :: Stops(sendRet, running, k)
  {
    if end.SendFailed? { assert Stops(sendRet, running, sent); }
    if end.Interrupted? { assert Stops(sendRet, running, sent - 1); }
  }

  /**
   One round of sending.  `sendRet(k)` is what the k-th `sendAudio` returns and `running(k)` what
   `global_run` reads after it; `iterations` bounds how much of the run is observed.  The looping
   sender ends, for all large enough bounds, exactly if the file is not empty and something stops it.
   */
  method SendAudioLoop(fs: Ifstream, tst: SendCounters, frameSize: nat, loopFile: bool,
                       sendRet: nat -> int, running: nat -> bool, iterations: nat)
    returns (accepted: seq<seq<byte>>, end: LoopEnd)
    requires fs.Rewound() && tst.audioFileDataUsedBytes == 0 && frameSize > 0
    modifies fs, tst
    ensures Accepted(fs.file, frameSize, loopFile, accepted)
    ensures Responses(sendRet, running, |accepted|, end)
    ensures tst.sendConsumed == old(tst.sendConsumed) + |accepted|
    ensures !loopFile || fs.file == [] ==> tst.audioFileDataUsedBytes == |Flatten(accepted)|
    ensures loopFile && fs.file != [] ==>
              tst.audioFileDataUsedBytes ==
              if |fs.file| % frameSize == 0 then |Flatten(accepted)| else |Flatten(accepted)| % |fs.file|
    ensures end.Finished? ==> !loopFile && accepted == Chunks(fs.file, frameSize)
    ensures !loopFile && iterations >= |Chunks(fs.file, frameSize)| + 2 ==> !end.StillRunning?
    ensures loopFile && !end.StillRunning? ==> fs.file != [] && exists k: nat :: Stops(sendRet, running, k)
    ensures loopFile && fs.file != [] && end.StillRunning? ==> iterations <= 2 * |accepted| + 1
    ensures loopFile && fs.file != [] ==>
              forall k: nat | Stops(sendRet, running, k) && iterations >= 2 * k + 2 :: !end.StillRunning?
  {
    hide Sending, Accepted, UsedWhenLooping, Aligned, Chunks, Flatten;
    accepted, end := [], StillRunning;
    var observed := 0;
    var sendAudioCnt := 0;
    ghost var file, passes, part := fs.file, 0, [];
    StartSending(file, frameSize, loopFile);
    while observed < iterations
      invariant observed <= iterations && fs.Valid() && end.StillRunning? && fs.eofbit == fs.failbit
      invariant Sending(file, frameSize, loopFile, fs.pos, fs.eofbit, passes, part, accepted,
                        tst.audioFileDataUsedBytes, observed)
      invariant Responses(sendRet, running, |accepted|, end)
      invariant tst.sendConsumed == old(tst.sendConsumed) && sendAudioCnt == |accepted|
    {
      if fs.eofbit {
        end := Finished;
        break;
      }
      ghost var before, used := fs.pos, tst.audioFileDataUsedBytes;
      var data := fs.Read(frameSize);
      var nlen := fs.gcount;
      if nlen == 0 {
        passes, part := SentNothing(file, frameSize, loopFile, passes, part, accepted, used, observed);
        observed := observed + 1;
        if loopFile {
          fs.Clear();
          fs.SeekBegin();
        }
        continue;
      }
      var ret := sendRet(sendAudioCnt);
      if ret < 0 {
        end := SendFailed;
        ConcludeSending(file, frameSize, loopFile, before, false, passes, part, accepted, used, observed);
        break;
      }
      passes, part := SentChunk(file, frameSize, loopFile, before, passes, part, accepted, used, observed, data);
      observed := observed + 1;
      tst.audioFileDataUsedBytes := tst.audioFileDataUsedBytes + nlen;
      accepted := accepted + [data];
      sendAudioCnt := sendAudioCnt + 1;
      if loopFile && fs.eofbit {
        fs.Clear();
        fs.SeekBegin();
        tst.audioFileDataUsedBytes := 0;
      }
      if !running(sendAudioCnt - 1) {
        end := Interrupted;
        break;
      }
    }
    tst.sendConsumed := tst.sendConsumed + sendAudioCnt;
    if !end.SendFailed? {
      ConcludeSending(file, frameSize, loopFile, fs.pos, fs.eofbit, passes, part, accepted,
                      tst.audioFileDataUsedBytes, observed);
    }
    RespondedTo(sendRet, running, |accepted|, end);
  }

  lemma EmptyAligned(frame: nat)
    requires frame > 0
    ensures Aligned([], frame)
  {}
}
