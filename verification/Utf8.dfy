/**
 UTF-8 as section 3 and section 4 of RFC 3629 define it, and why cutting UTF-8 text byte
 by byte at multi-byte delimiters never cuts through a character.
 */
module Utf8 {
  import opened Basics
  import opened Splitter

  /** A Unicode scalar value: surrogates are not encodable (section 3 of RFC 3629). */
  type CodePoint = x: int | 0 <= x <= 0x10FFFF && !(0xD800 <= x <= 0xDFFF)

  // ---- Encoding (section 3 of RFC 3629) ----

  function EncodeOne(c: CodePoint): (bs: seq<byte>)
    ensures 1 <= |bs| <= 4
  {
    if c < 0x80 then [c]
    else if c < 0x800 then [0xC0 + c / 64, 0x80 + c % 64]
    else if c < 0x10000 then [0xE0 + c / 4096, 0x80 + c / 64 % 64, 0x80 + c % 64]
    else [0xF0 + c / 262144, 0x80 + c / 4096 % 64, 0x80 + c / 64 % 64, 0x80 + c % 64]
  }

  function Encode(cs: seq<CodePoint>): seq<byte> {
    if cs == [] then [] else EncodeOne(cs[0]) + Encode(cs[1..])
  }

  // ---- The grammar of valid octet sequences (section 4 of RFC 3629) ----

  predicate Tail(s: seq<byte>, i: nat) {
    i < |s| && 0x80 <= s[i] <= 0xBF
  }

  predicate SecondIn(s: seq<byte>, lo: int, hi: int) {
    1 < |s| && lo <= s[1] <= hi
  }

  /** The length of the UTF8-char that `s` starts with, or 0 if it starts with none. */
  function CharLength(s: seq<byte>): (n: nat)
    ensures n <= |s|
  {
    if s == [] then 0
    else if s[0] <= 0x7F then 1
    else if 0xC2 <= s[0] <= 0xDF then if Tail(s, 1) then 2 else 0
    else if 0xE0 <= s[0] <= 0xEF then
      if Tail(s, 1) && Tail(s, 2) && (s[0] == 0xE0 ==> SecondIn(s, 0xA0, 0xBF))
         && (s[0] == 0xED ==> SecondIn(s, 0x80, 0x9F)) then 3 else 0
    else if 0xF0 <= s[0] <= 0xF4 then
      if Tail(s, 1) && Tail(s, 2) && Tail(s, 3) && (s[0] == 0xF0 ==> SecondIn(s, 0x90, 0xBF))
         && (s[0] == 0xF4 ==> SecondIn(s, 0x80, 0x8F)) then 4 else 0
    else 0
  }

  predicate ValidUtf8(s: seq<byte>) {
    s == [] || (CharLength(s) > 0 && ValidUtf8(s[CharLength(s)..]))
  }

  function DecodeHead(s: seq<byte>): (c: CodePoint)
    requires CharLength(s) > 0
  {
    match CharLength(s)
    case 1 => s[0]
    case 2 => Value2(s[0], s[1])
    case 3 => Value3(s[0], s[1], s[2])
    case _ => Value4(s[0], s[1], s[2], s[3])
  }

  function Value2(b0: int, b1: int): int { (b0 - 0xC0) * 64 + (b1 - 0x80) }

  function Value3(b0: int, b1: int, b2: int): int {
    (b0 - 0xE0) * 4096 + (b1 - 0x80) * 64 + (b2 - 0x80)
  }

  function Value4(b0: int, b1: int, b2: int, b3: int): int {
    (b0 - 0xF0) * 262144 + (b1 - 0x80) * 4096 + (b2 - 0x80) * 64 + (b3 - 0x80)
  }

  function Decode(s: seq<byte>): seq<CodePoint>
    requires ValidUtf8(s)
  {
    if s == [] then [] else [DecodeHead(s)] + Decode(s[CharLength(s)..])
  }

  // ---- Encoding and decoding are inverse to each other ----

  lemma Digits(c: nat)
    ensures c == c / 64 * 64 + c % 64
    ensures c / 64 == c / 4096 * 64 + c / 64 % 64
    ensures c / 4096 == c / 262144 * 64 + c / 4096 % 64
  {
    assert c / 64 / 64 == c / 4096;
    assert c / 4096 / 64 == c / 262144;
  }

  /** The examples of section 7 of RFC 3629, of one to four octets. */
  lemma RfcExamples()
    ensures EncodeOne(0x41) == [0x41] && EncodeOne(0x2E) == [0x2E]
    ensures EncodeOne(0x391) == [0xCE, 0x91]
    ensures EncodeOne(0x2262) == [0xE2, 0x89, 0xA2] && EncodeOne(0x65E5) == [0xE6, 0x97, 0xA5]
    ensures EncodeOne(0x233B4) == [0xF0, 0xA3, 0x8E, 0xB4]
  {}

  lemma EncodedIsChar(c: CodePoint, rest: seq<byte>)
    ensures CharLength(EncodeOne(c) + rest) == |EncodeOne(c)|
  {
    Digits(c);
  }

  lemma EncodedValue(c: CodePoint)
    ensures var e := EncodeOne(c);
            c == match |e|
                 case 1 => e[0]
                 case 2 => Value2(e[0], e[1])
                 case 3 => Value3(e[0], e[1], e[2])
                 case _ => Value4(e[0], e[1], e[2], e[3])
  {
    Digits(c);
  }

  lemma HeadOfEncoded(c: CodePoint, rest: seq<byte>)
    ensures var s := EncodeOne(c) + rest;
            CharLength(s) == |EncodeOne(c)| && DecodeHead(s) == c && s[CharLength(s)..] == rest
  {
    hide CharLength, EncodeOne;
    EncodedIsChar(c, rest);
    EncodedValue(c);
  }

  lemma Reencode2(b0: byte, b1: byte)
    requires 0xC2 <= b0 <= 0xDF && 0x80 <= b1 <= 0xBF
    ensures EncodeOne(Value2(b0, b1)) == [b0, b1]
  {}

  lemma DigitsOf3(x2: nat, x1: nat, x0: nat)
    requires x1 < 64 && x0 < 64
    ensures var c := x2 * 4096 + x1 * 64 + x0;
            c / 4096 == x2 && c / 64 % 64 == x1 && c % 64 == x0
  {
    var c := x2 * 4096 + x1 * 64 + x0;
    assert c / 64 == x2 * 64 + x1;
  }

  lemma DigitsOf4(x3: nat, x2: nat, x1: nat, x0: nat)
    requires x2 < 64 && x1 < 64 && x0 < 64
    ensures var c := x3 * 262144 + x2 * 4096 + x1 * 64 + x0;
            c / 262144 == x3 && c / 4096 % 64 == x2 && c / 64 % 64 == x1 && c % 64 == x0
  {
    var c := x3 * 262144 + x2 * 4096 + x1 * 64 + x0;
    assert c / 64 == x3 * 4096 + x2 * 64 + x1;
    assert c / 4096 == x3 * 64 + x2;
  }

  lemma Reencode3(b0: byte, b1: byte, b2: byte)
    requires CharLength([b0, b1, b2]) == 3
    ensures EncodeOne(Value3(b0, b1, b2)) == [b0, b1, b2]
  {
    DigitsOf3(b0 - 0xE0, b1 - 0x80, b2 - 0x80);
  }

  lemma Reencode4(b0: byte, b1: byte, b2: byte, b3: byte)
    requires CharLength([b0, b1, b2, b3]) == 4
    ensures EncodeOne(Value4(b0, b1, b2, b3)) == [b0, b1, b2, b3]
  {
    DigitsOf4(b0 - 0xF0, b1 - 0x80, b2 - 0x80, b3 - 0x80);
  }

  lemma EncodeDecodedHead(s: seq<byte>)
    requires CharLength(s) > 0
    ensures EncodeOne(DecodeHead(s)) == s[..CharLength(s)]
  {
    hide EncodeOne, Value2, Value3, Value4;
    match CharLength(s) {
      case 1 => AsciiEncodesAsItself(s[0]);
      case 2 => Reencode2(s[0], s[1]);
      case 3 => Reencode3(s[0], s[1], s[2]);
      case _ => Reencode4(s[0], s[1], s[2], s[3]);
    }
  }

  lemma AsciiEncodesAsItself(b: byte)
    requires b < 0x80
    ensures EncodeOne(b) == [b]
  {}

  lemma {:induction false} DecodeEncode(cs: seq<CodePoint>)
    ensures ValidUtf8(Encode(cs)) && Decode(Encode(cs)) == cs
  {
    hide CharLength, DecodeHead, EncodeOne;
    if cs == [] {
    } else {
      HeadOfEncoded(cs[0], Encode(cs[1..]));
      DecodeEncode(cs[1..]);
    }
  }

  lemma {:induction false} EncodeDecode(s: seq<byte>)
    requires ValidUtf8(s)
    ensures Encode(Decode(s)) == s
  {
    hide CharLength, DecodeHead, EncodeOne;
    if s == [] {
    } else {
      var n := CharLength(s);
      assert Decode(s) == [DecodeHead(s)] + Decode(s[n..]);
      hide Decode, Encode;
      EncodeDecodedHead(s);
      EncodeDecode(s[n..]);
      EncodeCons(DecodeHead(s), Decode(s[n..]));
    }
  }

  lemma EncodeCons(c: CodePoint, cs: seq<CodePoint>)
    ensures Encode([c] + cs) == EncodeOne(c) + Encode(cs)
  {
    hide EncodeOne;
    assert ([c] + cs)[1..] == cs;
  }

  lemma {:induction false} EncodeAppend(a: seq<CodePoint>, b: seq<CodePoint>)
    ensures Encode(a + b) == Encode(a) + Encode(b)
  {
    hide EncodeOne;
    if a == [] {
      assert a + b == b;
    } else {
      assert (a + b)[1..] == a[1..] + b;
      EncodeAppend(a[1..], b);
    }
  }

  lemma ValidAppend(a: seq<byte>, b: seq<byte>)
    requires ValidUtf8(a) && ValidUtf8(b)
    ensures ValidUtf8(a + b)
  {
    hide ValidUtf8, Decode, Encode;
    EncodeDecode(a);
    EncodeDecode(b);
    EncodeAppend(Decode(a), Decode(b));
    DecodeEncode(Decode(a) + Decode(b));
  }

  // ---- A byte-level match is a character-level match ----

  lemma LeadAndTails(c: CodePoint, i: nat)
    requires i < |EncodeOne(c)|
    ensures 0x80 <= EncodeOne(c)[i] <= 0xBF <==> i > 0
  {}

  lemma EncodePrefix(cs: seq<CodePoint>, k: nat)
    requires k <= |cs|
    ensures Encode(cs) == Encode(cs[..k]) + Encode(cs[k..])
    ensures k < |cs| ==> |Encode(cs[..k])| < |Encode(cs)|
  {
    hide EncodeOne;
    assert cs == cs[..k] + cs[k..];
    EncodeAppend(cs[..k], cs[k..]);
  }

  /** Longer prefixes have longer encodings. */
  lemma OffsetsIncrease(cs: seq<CodePoint>, j: nat, k: nat)
    requires j < k <= |cs|
    ensures |Encode(cs[..j])| < |Encode(cs[..k])|
  {
    hide Encode;
    assert cs[..k][..j] == cs[..j];
    EncodePrefix(cs[..k], j);
  }

  lemma {:induction false} EncodedPrefix(cs: seq<CodePoint>, d: seq<CodePoint>)
    requires MatchesAt(Encode(cs), Encode(d), 0)
    ensures MatchesAt(cs, d, 0)
  {
    hide EncodeOne, CharLength, DecodeHead;
    if d == [] {
    } else {
      var tail := Encode(cs)[|Encode(d)|..];
      assert Encode(cs) == Encode(d) + tail;
      assert Encode(cs) == EncodeOne(d[0]) + (Encode(d[1..]) + tail);
      HeadOfEncoded(d[0], Encode(d[1..]) + tail);
      HeadOfEncoded(cs[0], Encode(cs[1..]));
      assert Encode(cs[1..]) == Encode(d[1..]) + tail;
      EncodedPrefix(cs[1..], d[1..]);
      assert cs[0..|d|] == [cs[0]] + cs[1..][0..|d| - 1];
    }
  }

  /** Matches start at character boundaries only, because a delimiter starts with a leading byte. */
  lemma {:induction false} MatchAtBoundary(cs: seq<CodePoint>, d: seq<CodePoint>, i: nat) returns (k: nat)
    requires d != [] && MatchesAt(Encode(cs), Encode(d), i)
    ensures k <= |cs| && i == |Encode(cs[..k])| && MatchesAt(cs, d, k)
  {
    hide EncodeOne;
    if i == 0 {
      EncodedPrefix(cs, d);
      return 0;
    }
    var e := EncodeOne(cs[0]);
    assert Encode(d)[0] == Encode(cs)[i] by {
      assert Encode(cs)[i..i + |Encode(d)|][0] == Encode(cs)[i];
    }
    LeadAndTails(d[0], 0);
    if i < |e| {
      LeadAndTails(cs[0], i);
      assert false;
    }
    assert Encode(cs)[i..i + |Encode(d)|] == Encode(cs[1..])[i - |e|..i - |e| + |Encode(d)|];
    var k' := MatchAtBoundary(cs[1..], d, i - |e|);
    k := k' + 1;
    assert cs[..k][1..] == cs[1..][..k'];
    assert cs[k..k + |d|] == cs[1..][k'..k' + |d|];
  }

  lemma EncodedMatch(cs: seq<CodePoint>, d: seq<CodePoint>, k: nat)
    requires k <= |cs|
    ensures MatchesAt(cs, d, k) <==> MatchesAt(Encode(cs), Encode(d), |Encode(cs[..k])|)
  {
    hide Encode;
    EncodePrefix(cs, k);
    var i := |Encode(cs[..k])|;
    if MatchesAt(cs, d, k) {
      assert cs[k..][..|d|] == d;
      EncodePrefix(cs[k..], |d|);
      assert Encode(cs)[i..i + |Encode(d)|] == Encode(d);
    }
    if MatchesAt(Encode(cs), Encode(d), i) {
      assert Encode(cs)[i..i + |Encode(d)|] == Encode(cs[k..])[0..|Encode(d)|];
      EncodedPrefix(cs[k..], d);
      assert cs[k..][0..|d|] == cs[k..k + |d|];
    }
  }

  // ---- Splitting bytes is splitting characters ----

  function EncodeAll(ds: seq<seq<CodePoint>>): (bs: seq<seq<byte>>)
    ensures |bs| == |ds| && forall i | 0 <= i < |ds| :: bs[i] == Encode(ds[i])
  {
    if ds == [] then [] else [Encode(ds[0])] + EncodeAll(ds[1..])
  }

  function EncodeOption(d: Option<seq<CodePoint>>): Option<seq<byte>> {
    if d.None? then None else Some(Encode(d.value))
  }

  function EncodeTokens(ts: seq<Token<CodePoint>>): (bs: seq<Token<byte>>)
    ensures |bs| == |ts|
    ensures forall i | 0 <= i < |ts| :: bs[i] == Token(Encode(ts[i].piece), EncodeOption(ts[i].delimiter))
  {
    if ts == [] then []
    else [Token(Encode(ts[0].piece), EncodeOption(ts[0].delimiter))] + EncodeTokens(ts[1..])
  }

  lemma {:induction false} FirstListedEncoded(cs: seq<CodePoint>, ds: seq<seq<CodePoint>>, k: nat)
    requires k <= |cs|
    ensures FirstListed(Encode(cs), EncodeAll(ds), |Encode(cs[..k])|) == EncodeOption(FirstListed(cs, ds, k))
  {
    hide Encode, MatchesAt;
    if ds == [] {
    } else {
      EncodedMatch(cs, ds[0], k);
      FirstListedEncoded(cs, ds[1..], k);
      assert EncodeAll(ds)[1..] == EncodeAll(ds[1..]);
    }
  }

  /** No delimiter matches in the bytes of a stretch of characters where none matches. */
  lemma NoMatchInside(cs: seq<CodePoint>, ds: seq<seq<CodePoint>>, n: nat, i: nat)
    requires NoEmpty(ds) && n <= |cs| && i < |Encode(cs[..n])|
    requires forall j: nat | j < n :: FirstListed(cs, ds, j).None?
    ensures FirstListed(Encode(cs), EncodeAll(ds), i).None?
  {
    hide Encode, FirstListed, EncodeAll, MatchesAt;
    var f := FirstListed(Encode(cs), EncodeAll(ds), i);
    if f.Some? {
      var m :| 0 <= m < |ds| && EncodeAll(ds)[m] == f.value;
      assert ds[m] in ds;
      var k := MatchAtBoundary(cs, ds[m], i);
      if k >= n {
        if k > n { OffsetsIncrease(cs, n, k); }
        assert false;
      }
      FirstListedEncoded(cs, ds, k);
    }
  }

  lemma EncodeThree(p: seq<CodePoint>, d: Option<seq<CodePoint>>, rest: seq<CodePoint>)
    ensures Encode(p + Ending(d) + rest) == Encode(p) + Ending(EncodeOption(d)) + Encode(rest)
  {
    EncodeAppend(p + Ending(d), rest);
    EncodeAppend(p, Ending(d));
    EmptyEncoding([]);
  }

  /** The first token of a text is encoded in the first bytes of its encoding. */
  lemma FirstTokenEncoded(cs: seq<CodePoint>, ds: seq<seq<CodePoint>>, t: Token<CodePoint>)
    requires NoEmpty(ds)
    requires |t.piece| <= |cs| && cs[..|t.piece|] == t.piece
    requires forall j: nat | j < |t.piece| :: FirstListed(cs, ds, j).None?
    requires FirstListed(cs, ds, |t.piece|) == t.delimiter
    ensures forall j: nat | j < |Encode(t.piece)| :: FirstListed(Encode(cs), EncodeAll(ds), j).None?
    ensures FirstListed(Encode(cs), EncodeAll(ds), |Encode(t.piece)|) == EncodeOption(t.delimiter)
  {
    hide FirstListed, EncodeAll, Encode;
    forall j: nat | j < |Encode(t.piece)|
      ensures FirstListed(Encode(cs), EncodeAll(ds), j).None?
    {
      NoMatchInside(cs, ds, |t.piece|, j);
    }
    FirstListedEncoded(cs, ds, |t.piece|);
  }

  lemma {:induction false} EncodedTokenization(cs: seq<CodePoint>, ds: seq<seq<CodePoint>>)
    requires NoEmpty(ds)
    ensures IsTokenization(Encode(cs), EncodeAll(ds), EncodeTokens(Split(cs, ds)))
    decreases |cs|
  {
    hide Encode, FirstListed, EncodeAll, LeftmostCut;
    EmptyEncoding(cs);
    if cs == [] {
    } else {
      hide IsTokenization, Split;
      var t, rest := SplitStep(cs, ds);
      assert cs[..|t.piece|] == t.piece;
      FirstTokenEncoded(cs, ds, t);
      EncodeThree(t.piece, t.delimiter, rest);
      EncodedTokenization(rest, ds);
      EmptyEncoding(rest);
      var t' := Token(Encode(t.piece), EncodeOption(t.delimiter));
      TokenizationCons(Encode(cs), EncodeAll(ds), t', Encode(rest), EncodeTokens(Split(rest, ds)));
      assert EncodeTokens(Split(cs, ds)) == [t'] + EncodeTokens(Split(rest, ds)) by {
        assert Split(cs, ds)[1..] == Split(rest, ds);
      }
    }
  }

  lemma EmptyEncoding(cs: seq<CodePoint>)
    ensures Encode(cs) == [] <==> cs == []
  {}

  lemma SplitEncoded(cs: seq<CodePoint>, ds: seq<seq<CodePoint>>)
    requires NoEmpty(ds) && NoEmpty(EncodeAll(ds))
    ensures Split(Encode(cs), EncodeAll(ds)) == EncodeTokens(Split(cs, ds))
  {
    hide *;
    EncodedTokenization(cs, ds);
    SplitUnique(Encode(cs), EncodeAll(ds), EncodeTokens(Split(cs, ds)));
  }

  // ---- The theorems, on octets ----

  predicate AllValid(ds: seq<seq<byte>>) {
    forall d | d in ds :: ValidUtf8(d)
  }

  function DecodeAll(ds: seq<seq<byte>>): (r: seq<seq<CodePoint>>)
    requires AllValid(ds)
    ensures |r| == |ds| && forall i | 0 <= i < |ds| :: r[i] == Decode(ds[i])
  {
    if ds == [] then []
    else
      assert ds[0] in ds && forall d | d in ds[1..] :: d in ds;
      [Decode(ds[0])] + DecodeAll(ds[1..])
  }

  lemma DecodeAllFacts(ds: seq<seq<byte>>)
    requires AllValid(ds) && NoEmpty(ds)
    ensures NoEmpty(DecodeAll(ds)) && EncodeAll(DecodeAll(ds)) == ds
  {
    hide DecodeAll, EncodeAll, ValidUtf8, Encode, Decode;
    forall i | 0 <= i < |ds|
      ensures Encode(Decode(ds[i])) == ds[i] && Decode(ds[i]) != []
    {
      assert ds[i] in ds;
      EncodeDecode(ds[i]);
      EmptyEncoding(Decode(ds[i]));
    }
    assert forall c | c in DecodeAll(ds) :: exists i :: 0 <= i < |ds| && c == Decode(ds[i]);
  }

  /** Splitting valid UTF-8 byte by byte gives the encoded tokens of splitting its characters. */
  lemma ByteSplitIsCharacterSplit(text: seq<byte>, ds: seq<seq<byte>>)
    requires ValidUtf8(text) && AllValid(ds) && NoEmpty(ds)
    ensures NoEmpty(DecodeAll(ds))
    ensures Split(text, ds) == EncodeTokens(Split(Decode(text), DecodeAll(ds)))
  {
    hide Split, FirstListed, LeftmostCut, EncodeTokens, EncodeAll, DecodeAll, Decode, ValidUtf8;
    EncodeDecode(text);
    DecodeAllFacts(ds);
    SplitEncoded(Decode(text), DecodeAll(ds));
  }

  lemma {:induction false} JoinValid(ts: seq<Token<byte>>)
    requires forall k | 0 <= k < |ts| :: ValidUtf8(ts[k].piece)
    requires forall k | 0 <= k < |ts| :: ts[k].delimiter.Some? ==> ValidUtf8(ts[k].delimiter.value)
    ensures ValidUtf8(Join(ts))
  {
    hide CharLength;
    if ts == [] {
    } else {
      JoinValid(ts[1..]);
      var d := Ending(ts[0].delimiter);
      ValidAppend(ts[0].piece, d);
      ValidAppend(ts[0].piece + d, Join(ts[1..]));
    }
  }

  /** Every piece is valid UTF-8 exactly when the text is. */
  lemma PiecesValidExactly(text: seq<byte>, ds: seq<seq<byte>>)
    requires AllValid(ds) && NoEmpty(ds)
    ensures ValidUtf8(text) <==> AllValid(Pieces(Split(text, ds)))
  {
    hide Split, FirstListed, LeftmostCut, EncodeTokens, DecodeAll, Decode, ValidUtf8, Join, Pieces;
    var ts := Split(text, ds);
    if ValidUtf8(text) {
      ByteSplitIsCharacterSplit(text, ds);
      var cs := Split(Decode(text), DecodeAll(ds));
      forall p | p in Pieces(ts)
        ensures ValidUtf8(p)
      {
        var k :| 0 <= k < |ts| && p == Pieces(ts)[k];
        DecodeEncode(cs[k].piece);
      }
    }
    if AllValid(Pieces(ts)) {
      forall k | 0 <= k < |ts|
        ensures ValidUtf8(ts[k].piece)
        ensures ts[k].delimiter.Some? ==> ValidUtf8(ts[k].delimiter.value)
      {
        assert Pieces(ts)[k] in Pieces(ts);
        OnlyLastUndelimited(text, ds, k);
      }
      JoinValid(ts);
      JoinRebuilds(text, ds);
    }
  }
}
