/**
 The split-and-send loop of the streaming synthesizer demo (demo/Linux/flowingSynthesizerDemo.cpp):
 a text is cut into sentences, and every sentence that is not blank is handed to `sendText`
 as a NUL-terminated string.
 */
module TextSender {
  import opened Basics
  import opened Splitter
  import opened Utf8

  /** The five delimiters as code points: ideographic full stop, fullwidth `!`, `;`, `?`, and newline. */
  const DELIMITER_CHARACTERS: seq<seq<CodePoint>> := [[0x3002], [0xFF01], [0xFF1B], [0xFF1F], [0x0A]]

  /** The same delimiters as the bytes of the source file. */
  const DELIMITERS: seq<seq<byte>> :=
    [[0xE3, 0x80, 0x82], [0xEF, 0xBC, 0x81], [0xEF, 0xBC, 0x9B], [0xEF, 0xBC, 0x9F], [0x0A]]

  lemma OneCharacter(c: CodePoint, bs: seq<byte>)
    requires EncodeOne(c) == bs
    ensures Encode([c]) == bs && ValidUtf8(bs) && bs != []
  {
    hide EncodeOne, ValidUtf8;
    assert [c][1..] == [];
    DecodeEncode([c]);
  }

  lemma DelimiterFacts()
    ensures EncodeAll(DELIMITER_CHARACTERS) == DELIMITERS
    ensures NoEmpty(DELIMITERS) && NoEmpty(DELIMITER_CHARACTERS) && AllValid(DELIMITERS)
  {
    OneCharacter(0x3002, [0xE3, 0x80, 0x82]);
    OneCharacter(0xFF01, [0xEF, 0xBC, 0x81]);
    OneCharacter(0xFF1B, [0xEF, 0xBC, 0x9B]);
    OneCharacter(0xFF1F, [0xEF, 0xBC, 0x9F]);
    OneCharacter(0x0A, [0x0A]);
    hide EncodeAll, ValidUtf8, Encode;
    assert forall k | 0 <= k < 5 :: EncodeAll(DELIMITER_CHARACTERS)[k] == DELIMITERS[k];
  }

  /** Cutting the bytes of a valid text at the five delimiters is cutting its characters. */
  lemma SentencesOfCharacters(text: seq<byte>)
    requires ValidUtf8(text)
    ensures NoEmpty(DELIMITERS) && NoEmpty(DELIMITER_CHARACTERS)
    ensures Split(text, DELIMITERS) == EncodeTokens(Split(Decode(text), DELIMITER_CHARACTERS))
  {
    hide *;
    DelimiterFacts();
    EncodeDecode(text);
    SplitEncoded(Decode(text), DELIMITER_CHARACTERS);
  }

  function Sentences(text: seq<byte>): seq<seq<byte>> {
    DelimiterFacts();
    Pieces(Split(text, DELIMITERS))
  }

  // ---- C strings ----

  /** What a callee sees of `s.c_str()`: the bytes before the first NUL. */
  function CStr(s: seq<byte>): (r: seq<byte>)
    ensures r <= s && 0 !in r
    ensures |r| < |s| ==> s[|r|] == 0
  {
    if s == [] || s[0] == 0 then [] else [s[0]] + CStr(s[1..])
  }

  /** `std::isspace` in the "C" locale. */
  predicate IsSpace(b: byte) {
    b == 0x20 || 0x09 <= b <= 0x0D
  }

  predicate HasInk(s: seq<byte>) {
    exists i | 0 <= i < |s| :: !IsSpace(s[i])
  }

  /** Before its first NUL there is a byte other than tab, newline, vertical tab, form feed, return and space. */
  ghost predicate Visible(s: seq<byte>) {
    exists i | 0 <= i < |s| ::
      0 !in s[..i + 1] && s[i] !in {0x09, 0x0A, 0x0B, 0x0C, 0x0D, 0x20}
  }

  lemma VisibleIsInk(s: seq<byte>)
    ensures Visible(s) <==> HasInk(CStr(s))
  {
    var r := CStr(s);
    if i :| 0 <= i < |r| && !IsSpace(r[i]) {
      assert s[..i + 1] == r[..i + 1];
    }
    if i :| 0 <= i < |s| && 0 !in s[..i + 1] && s[i] !in {0x09, 0x0A, 0x0B, 0x0C, 0x0D, 0x20} {
      BeforeNul(s, i);
      assert r[i] == s[i] && !IsSpace(r[i]);
    }
  }

  lemma {:induction false} BeforeNul(s: seq<byte>, i: nat)
    requires i < |s| && 0 !in s[..i + 1]
    ensures i < |CStr(s)|
  {
    assert s[0] == s[..i + 1][0];
    if i == 0 {
    } else {
      assert s[1..][..i] == s[..i + 1][1..];
      BeforeNul(s[1..], i - 1);
    }
  }

  /** `None` stands for a NULL pointer. */
  method IsNotEmptyAndNotSpace(str: Option<seq<byte>>) returns (r: bool)
    ensures r <==> str.Some? && Visible(str.value)
    ensures r <==> str.Some? && HasInk(CStr(str.value))
  {
    if str.None? {
      return false;
    }
    VisibleIsInk(str.value);
    var s := CStr(str.value);
    var length := |s|;
    if length == 0 {
      return false;
    }
    for i := 0 to length
      invariant forall j | 0 <= j < i :: IsSpace(s[j])
    {
      if !IsSpace(s[i]) {
        return true;
      }
    }
    return false;
  }

  // ---- The send loop ----

  /** The C string of `p`, if it is not blank. */
  function SendableOne(p: seq<byte>): seq<seq<byte>> {
    if HasInk(CStr(p)) then [CStr(p)] else []
  }

  /** What `sendText` receives when the loop runs to the end. */
  function Sendable(pieces: seq<seq<byte>>): seq<seq<byte>> {
    if pieces == [] then [] else SendableOne(pieces[0]) + Sendable(pieces[1..])
  }

  lemma {:induction false} SendableAppend(a: seq<seq<byte>>, b: seq<seq<byte>>)
    ensures Sendable(a + b) == Sendable(a) + Sendable(b)
  {
    if a == [] {
      assert a + b == b;
    } else {
      assert (a + b)[1..] == a[1..] + b;
      SendableAppend(a[1..], b);
    }
  }

  lemma SendableSingle(p: seq<byte>)
    ensures Sendable([p]) == SendableOne(p) && Sendable([]) == []
  {
    hide SendableOne;
    assert [p][1..] == [];
  }

  lemma SendablePrefix(pieces: seq<seq<byte>>, i: nat)
    requires i < |pieces|
    ensures Sendable(pieces[..i + 1]) == Sendable(pieces[..i]) + SendableOne(pieces[i])
  {
    hide *;
    assert pieces[..i + 1] == pieces[..i] + [pieces[i]];
    SendableAppend(pieces[..i], [pieces[i]]);
    SendableSingle(pieces[i]);
  }

  /** Piece by piece: the C string of each visible piece is sent, and nothing of the others. */
  lemma SendableExactly(pieces: seq<seq<byte>>, i: nat)
    requires i < |pieces|
    ensures Sendable([]) == []
    ensures Visible(pieces[i]) ==>
              exists n: nat | n <= |pieces[i]| ::
                && 0 !in pieces[i][..n] && (n < |pieces[i]| ==> pieces[i][n] == 0)
                && Sendable(pieces[..i + 1]) == Sendable(pieces[..i]) + [pieces[i][..n]]
    ensures !Visible(pieces[i]) ==> Sendable(pieces[..i + 1]) == Sendable(pieces[..i])
  {
    SendablePrefix(pieces, i);
    VisibleIsInk(pieces[i]);
    SendableSingle(pieces[i]);
    hide Visible, HasInk, Sendable;
    var n := |CStr(pieces[i])|;
    assert pieces[i][..n] == CStr(pieces[i]);
  }

  lemma SendableSplit(pieces: seq<seq<byte>>, i: nat)
    requires i <= |pieces|
    ensures Sendable(pieces) == Sendable(pieces[..i]) + Sendable(pieces[i..])
  {
    hide *;
    TakeDrop(pieces, i);
    SendableAppend(pieces[..i], pieces[i..]);
  }

  datatype SendEnd = AllSent | Refused | Interrupted

  /** Nothing has interrupted the run before the i-th sentence is over. */
  ghost predicate RunningUpTo(running: nat -> bool, i: nat) {
    forall j: nat | j < i :: running(j)
  }

  /**
   How a run over the sentences can end.  Whatever the end, what was accepted is a prefix of
   what there is to send.  The run ends at the first refused sentence or behind the first
   sentence after which `global_run` is reset, and otherwise everything is sent.
   */
  ghost predicate SendOutcome(
    sentences: seq<seq<byte>>, sendRet: nat -> int, running: nat -> bool,
    accepted: seq<seq<byte>>, ret: int, end: SendEnd)
  {
    var all := Sendable(sentences);
    && accepted <= all
    && (forall k | 0 <= k < |accepted| :: sendRet(k) >= 0)
    && (ret < 0 <==> end.Refused?)
    && match end
       case AllSent => accepted == all && forall i | 0 <= i < |sentences| :: running(i)
       case Refused =>
         && |accepted| < |all| && ret == sendRet(|accepted|)
         && exists i | 0 <= i < |sentences| ::
              accepted == Sendable(sentences[..i]) && HasInk(CStr(sentences[i])) && RunningUpTo(running, i)
       case Interrupted =>
         exists i | 0 <= i < |sentences| ::
           accepted == Sendable(sentences[..i + 1]) && !running(i) && RunningUpTo(running, i)
  }

  /** Without a refusal and an interruption everything is sent. */
  lemma UndisturbedSendsAll(
    sentences: seq<seq<byte>>, sendRet: nat -> int, running: nat -> bool,
    accepted: seq<seq<byte>>, ret: int, end: SendEnd)
    requires SendOutcome(sentences, sendRet, running, accepted, ret, end)
    requires forall k | 0 <= k < |Sendable(sentences)| :: sendRet(k) >= 0
    requires forall i | 0 <= i < |sentences| :: running(i)
    ensures accepted == Sendable(sentences)
  {}

  /**
   `sendRet(k)` is what the k-th call of `sendText` returns, and `running(i)` what `global_run`
   reads after the i-th sentence.  `accepted` are the strings that `sendText` took.
   */
  method SendSentences(text: seq<byte>, startRet: nat, sendRet: nat -> int, running: nat -> bool)
    returns (accepted: seq<seq<byte>>, ret: int, end: SendEnd)
    ensures SendOutcome(Sentences(text), sendRet, running, accepted, ret, end)
  {
    accepted, ret, end := [], startRet, AllSent;
    if text == [] {
      EmptyText(text);
    } else {
      var sentences := SentencesOf(text);
      accepted, ret, end := SendPieces(sentences, startRet, sendRet, running);
    }
  }

  method SendPieces(sentences: seq<seq<byte>>, startRet: nat, sendRet: nat -> int, running: nat -> bool)
    returns (accepted: seq<seq<byte>>, ret: int, end: SendEnd)
    ensures SendOutcome(sentences, sendRet, running, accepted, ret, end)
  {
    hide Sentences, HasInk, CStr, Sendable;
    accepted, ret, end := [], startRet, AllSent;
    SendableSingle([]);
    var calls := 0;
    for i := 0 to |sentences|
      invariant accepted == Sendable(sentences[..i]) && calls == |accepted|
      invariant forall k | 0 <= k < calls :: sendRet(k) >= 0
      invariant forall j | 0 <= j < i :: running(j)
      invariant ret >= 0 && end.AllSent?
    {
      SendablePrefix(sentences, i);
      SendableSplit(sentences, i + 1);
      var inked := IsNotEmptyAndNotSpace(Some(sentences[i]));
      if inked {
        ret := sendRet(calls);
        if ret < 0 {
          end := Refused;
          return;
        }
        calls := calls + 1;
        accepted := accepted + [CStr(sentences[i])];
      }
      if !running(i) {
        end := Interrupted;
        return;
      }
    }
    assert sentences[..|sentences|] == sentences;
  }

  method SentencesOf(text: seq<byte>) returns (sentences: seq<seq<byte>>)
    ensures sentences == Sentences(text)
  {
    DelimiterFacts();
    sentences := SplitString(text, DELIMITERS);
  }

  lemma EmptyText(text: seq<byte>)
    requires text == []
    ensures Sendable(Sentences(text)) == [] && Sentences(text) == []
  {}

  // ---- Nothing is lost ----

  function Inked(pieces: seq<seq<byte>>): seq<seq<byte>> {
    if pieces == [] then []
    else (if HasInk(pieces[0]) then [pieces[0]] else []) + Inked(pieces[1..])
  }

  /** The bytes of `s` that are not white space, in order. */
  function Ink(s: seq<byte>): seq<byte> {
    if s == [] then [] else (if IsSpace(s[0]) then [] else [s[0]]) + Ink(s[1..])
  }

  predicate NulFree(s: seq<byte>) {
    0 !in s
  }

  predicate Intact(pieces: seq<seq<byte>>) {
    forall p | p in pieces :: CStr(p) == p
  }

  lemma IntactOne(p: seq<byte>)
    ensures CStr(p) == p <==> NulFree(p)
  {}

  lemma {:induction false} IntactTokens(ts: seq<Token<byte>>)
    requires forall k | 0 <= k < |ts| :: NulFree(Ending(ts[k].delimiter))
    ensures NulFree(Join(ts)) <==> Intact(Pieces(ts))
  {
    hide CStr;
    if ts == [] {
    } else {
      IntactOne(ts[0].piece);
      IntactTokens(ts[1..]);
      var ps := Pieces(ts[1..]);
      assert Pieces(ts) == [ts[0].piece] + ps;
      assert forall p :: p in Pieces(ts) <==> p == ts[0].piece || p in ps;
    }
  }

  lemma EndingNulFree(d: Option<seq<byte>>)
    requires d.Some? ==> d.value in DELIMITERS
    ensures NulFree(Ending(d))
  {}

  /** A text without NUL reaches `sendText` untruncated, and only such a text does. */
  lemma UntruncatedExactly(text: seq<byte>)
    ensures NulFree(text) <==> Intact(Sentences(text))
  {
    DelimiterFacts();
    var ts := Split(text, DELIMITERS);
    assert Sentences(text) == Pieces(ts);
    hide *;
    JoinRebuilds(text, DELIMITERS);
    forall k | 0 <= k < |ts|
      ensures NulFree(Ending(ts[k].delimiter))
    {
      OnlyLastUndelimited(text, DELIMITERS, k);
      EndingNulFree(ts[k].delimiter);
    }
    IntactTokens(ts);
  }

  lemma {:induction false} SendableIsInked(pieces: seq<seq<byte>>)
    requires Intact(pieces)
    ensures Sendable(pieces) == Inked(pieces)
  {
    if pieces == [] {
    } else {
      SendableIsInked(pieces[1..]);
    }
  }

  lemma {:induction false} InkedLength(pieces: seq<seq<byte>>)
    ensures |Flatten(Sendable(pieces))| <= |Flatten(Inked(pieces))|
    ensures |Flatten(Sendable(pieces))| == |Flatten(Inked(pieces))| ==> Intact(pieces)
  {
    if pieces == [] {
    } else {
      var p, rest := pieces[0], pieces[1..];
      InkedLength(rest);
      FlattenAppend(SendableOne(p), Sendable(rest));
      var inked := if HasInk(p) then [p] else [];
      FlattenAppend(inked, Inked(rest));
      PieceLength(p);
    }
  }

  lemma PieceLength(p: seq<byte>)
    ensures var inked := if HasInk(p) then [p] else [];
            |Flatten(SendableOne(p))| <= |Flatten(inked)| &&
            (|Flatten(SendableOne(p))| == |Flatten(inked)| ==> CStr(p) == p)
  {}

  lemma {:induction false} InkAppend(a: seq<byte>, b: seq<byte>)
    ensures Ink(a + b) == Ink(a) + Ink(b)
  {
    if a == [] {
      assert a + b == b;
    } else {
      assert (a + b)[1..] == a[1..] + b;
      InkAppend(a[1..], b);
    }
  }

  /** Ink is what remains without tab, newline, vertical tab, form feed, return and space. */
  lemma InkExactly(s: seq<byte>, b: byte)
    ensures Ink(s + [b]) == if b in {0x09, 0x0A, 0x0B, 0x0C, 0x0D, 0x20} then Ink(s) else Ink(s) + [b]
    ensures Ink([]) == []
  {
    InkAppend(s, [b]);
    assert [b][1..] == [];
  }

  lemma {:induction false} NoInkInBlank(s: seq<byte>)
    ensures Ink(s) == [] <==> !HasInk(s)
  {
    if s == [] {
    } else {
      NoInkInBlank(s[1..]);
      assert forall i | 1 <= i < |s| :: s[i] == s[1..][i - 1];
    }
  }

  lemma {:induction false} InkOfInked(pieces: seq<seq<byte>>)
    ensures Ink(Flatten(Inked(pieces))) == Ink(Flatten(pieces))
  {
    hide Ink;
    if pieces == [] {
    } else {
      var p, rest := pieces[0], pieces[1..];
      InkOfInked(rest);
      NoInkInBlank(p);
      InkAppend(p, Flatten(rest));
      InkAppend(p, Flatten(Inked(rest)));
      assert HasInk(p) ==> Inked(pieces)[0] == p && Inked(pieces)[1..] == Inked(rest);
      assert !HasInk(p) ==> Inked(pieces) == Inked(rest);
    }
  }

  /** Cutting a valid string at its first NUL keeps it valid. */
  lemma CStrValid(s: seq<byte>)
    requires ValidUtf8(s)
    ensures ValidUtf8(CStr(s))
  {
    hide CharLength, DecodeHead, EncodeOne, CStr;
    EncodeDecode(s);
    var k := CStrOfEncoded(Decode(s));
    DecodeEncode(Decode(s)[..k]);
  }

  lemma {:induction false} CStrOfEncoded(cs: seq<CodePoint>) returns (k: nat)
    ensures k <= |cs| && CStr(Encode(cs)) == Encode(cs[..k])
  {
    if cs == [] || cs[0] == 0 {
      k := 0;
    } else {
      k := CStrOfEncoded(cs[1..]);
      k := k + 1;
      CStrAppend(EncodeOne(cs[0]), Encode(cs[1..]));
      assert cs[..k][1..] == cs[1..][..k - 1];
    }
  }

  lemma {:induction false} CStrAppend(a: seq<byte>, b: seq<byte>)
    requires NulFree(a)
    ensures CStr(a + b) == a + CStr(b)
  {
    if a == [] {
      assert a + b == b;
    } else {
      assert (a + b)[1..] == a[1..] + b;
      CStrAppend(a[1..], b);
    }
  }

  /**
   What is sent are exactly the sentences that are not blank, in order, if and only if the text
   has no NUL.  Then all their ink is sent.
   */
  lemma NothingLost(text: seq<byte>)
    ensures Sendable(Sentences(text)) == Inked(Sentences(text)) <==> NulFree(text)
    ensures NulFree(text) ==> Ink(Flatten(Sendable(Sentences(text)))) == Ink(Flatten(Sentences(text)))
  {
    hide *;
    UntruncatedExactly(text);
    InkedLength(Sentences(text));
    if NulFree(text) {
      SendableIsInked(Sentences(text));
    }
    InkOfInked(Sentences(text));
  }

  /** A valid text: everything sent is valid UTF-8, whether or not NUL bytes cut it short. */
  lemma SentIsValid(text: seq<byte>, p: seq<byte>)
    requires ValidUtf8(text) && p in Sendable(Sentences(text))
    ensures ValidUtf8(p)
  {
    hide ValidUtf8, Split, HasInk, CStr;
    DelimiterFacts();
    PiecesValidExactly(text, DELIMITERS);
    var piece := SentFrom(Sentences(text), p);
    CStrValid(piece);
  }

  lemma PrefixMatch(p: seq<byte>, q: seq<byte>, d: seq<byte>, i: nat)
    requires p <= q && i + |d| <= |p| && p[i..i + |d|] == d
    ensures i + |d| <= |q| && q[i..i + |d|] == d
  {
    assert q[i..i + |d|] == p[i..i + |d|];
  }

  lemma PieceDelimiterFree(text: seq<byte>, piece: seq<byte>, d: seq<byte>, i: nat)
    requires piece in Sentences(text) && d in DELIMITERS
    ensures i + |d| <= |piece| ==> piece[i..i + |d|] != d
  {
    DelimiterFacts();
    var k :| 0 <= k < |Sentences(text)| && Sentences(text)[k] == piece;
    hide Split, NoEmpty;
    PiecesDelimiterFree(text, DELIMITERS, k, d, i);
  }

  /** The bytes of the ideographic full stop, the fullwidth `!`, `;` and `?`, and newline. */
  ghost predicate EndsSentence(d: seq<byte>) {
    || d == [0xE3, 0x80, 0x82]
    || d == [0xEF, 0xBC, 0x81]
    || d == [0xEF, 0xBC, 0x9B]
    || d == [0xEF, 0xBC, 0x9F]
    || d == [0x0A]
  }

  lemma EndsSentenceExactly(d: seq<byte>)
    ensures d in DELIMITERS <==> EndsSentence(d)
  {
    assert DELIMITERS[0] == [0xE3, 0x80, 0x82] && DELIMITERS[1] == [0xEF, 0xBC, 0x81];
    assert DELIMITERS[2] == [0xEF, 0xBC, 0x9B] && DELIMITERS[3] == [0xEF, 0xBC, 0x9F] && DELIMITERS[4] == [0x0A];
  }

  /** Nothing that is sent contains the end of a sentence. */
  lemma SentDelimiterFree(text: seq<byte>, p: seq<byte>, d: seq<byte>, i: nat)
    requires p in Sendable(Sentences(text)) && EndsSentence(d)
    ensures i + |d| <= |p| ==> p[i..i + |d|] != d
  {
    EndsSentenceExactly(d);
    hide *;
    var piece := SentFrom(Sentences(text), p);
    PieceDelimiterFree(text, piece, d, i);
    if i + |d| <= |p| && p[i..i + |d|] == d { PrefixMatch(p, piece, d, i); }
  }

  lemma {:induction false} SentFrom(pieces: seq<seq<byte>>, p: seq<byte>) returns (piece: seq<byte>)
    requires p in Sendable(pieces)
    ensures piece in pieces && p == CStr(piece) && HasInk(p)
  {
    if HasInk(CStr(pieces[0])) && p == CStr(pieces[0]) {
      piece := pieces[0];
    } else {
      piece := SentFrom(pieces[1..], p);
    }
  }

  lemma Undelimited(text: seq<byte>)
    requires text != [] && forall j, d | 0 <= j < |text| && d in DELIMITERS :: text[j] != d[0]
    ensures Sentences(text) == [text]
  {
    DelimiterFacts();
    SplitPieces(text, DELIMITERS);
  }

  /** With a NUL in the text the rest of its sentence is dropped: `A NUL B` sends `A` only. */
  lemma NulLosesText()
    ensures Sendable(Sentences([0x41, 0, 0x42])) == [[0x41]]
  {
    hide Split, FirstListed, LeftmostCut, Pieces, Sentences;
    var text: seq<byte> := [0x41, 0, 0x42];
    Undelimited(text);
    CStrAppend([0x41], [0, 0x42]);
    assert [0x41] + [0, 0x42] == text;
    assert CStr(text) == [0x41];
    assert HasInk([0x41]) by { assert !IsSpace([0x41][0]); }
    assert Sendable([text]) == SendableOne(text) + Sendable([]);
  }
}
