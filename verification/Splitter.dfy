/**
 The multi-delimiter tokenizer `splitString` (demo/Linux/demo_utils.cpp).

 The program works delimiter by delimiter: from the current position it asks
 `std::string::find` for every delimiter and keeps the smallest position.  The
 specification works position by position: cut at the first position where any
 delimiter matches, and at that position take the earliest-listed delimiter.
 Everything is generic in the alphabet, so that the same tokenizer can be run on
 bytes and on code points.
 */
module Splitter {
  import opened Basics

  // ---- std::string::find ----

  predicate MatchesAt<T(==)>(s: seq<T>, d: seq<T>, i: nat) {
    i + |d| <= |s| && s[i..i + |d|] == d
  }

  /** `s.find(d, start)`; `None` stands for `std::string::npos`. */
  function Find<T(==)>(s: seq<T>, d: seq<T>, start: nat): (r: Option<nat>)
    ensures r.Some? ==> start <= r.value && MatchesAt(s, d, r.value)
    ensures r.Some? ==> forall j: nat | start <= j < r.value :: !MatchesAt(s, d, j)
    ensures r.None? ==> forall j: nat | start <= j :: !MatchesAt(s, d, j)
    decreases |s| - start
  {
    if start > |s| then None
    else if MatchesAt(s, d, start) then Some(start)
    else if start == |s| then None
    else Find(s, d, start + 1)
  }

  // ---- Specification ----

  /** A piece of text together with the delimiter that ended it, if one did. */
  datatype Token<T> = Token(piece: seq<T>, delimiter: Option<seq<T>>)

  datatype Cut<T> = Cut(pos: nat, delimiter: seq<T>)

  /** The earliest-listed delimiter that matches at position `i`. */
  function FirstListed<T(==)>(s: seq<T>, ds: seq<seq<T>>, i: nat): (r: Option<seq<T>>)
    ensures r.Some? ==> r.value in ds && MatchesAt(s, r.value, i)
    ensures r.None? ==> forall d | d in ds :: !MatchesAt(s, d, i)
  {
    if ds == [] then None
    else if MatchesAt(s, ds[0], i) then Some(ds[0])
    else FirstListed(s, ds[1..], i)
  }

  /** Of the delimiters that match at `i` it is the one with the smallest index. */
  lemma {:induction false} FirstListedIsEarliest<T>(s: seq<T>, ds: seq<seq<T>>, i: nat) returns (k: nat)
    requires FirstListed(s, ds, i).Some?
    ensures k < |ds| && FirstListed(s, ds, i) == Some(ds[k]) && i + |ds[k]| <= |s| && s[i..i + |ds[k]|] == ds[k]
    ensures forall l | 0 <= l < k :: i + |ds[l]| <= |s| ==> s[i..i + |ds[l]|] != ds[l]
  {
    if MatchesAt(s, ds[0], i) {
      k := 0;
    } else {
      k := FirstListedIsEarliest(s, ds[1..], i);
      k := k + 1;
      assert forall l | 0 < l < k :: ds[l] == ds[1..][l - 1];
    }
  }

  /** The leftmost position, from `i` on, where any delimiter matches. */
  function LeftmostCut<T(==)>(s: seq<T>, ds: seq<seq<T>>, i: nat): (r: Option<Cut<T>>)
    ensures r.Some? ==> i <= r.value.pos && FirstListed(s, ds, r.value.pos) == Some(r.value.delimiter)
    ensures r.Some? ==> forall j: nat | i <= j < r.value.pos :: FirstListed(s, ds, j).None?
    ensures r.None? ==> forall j: nat | i <= j :: FirstListed(s, ds, j).None?
    decreases |s| - i
  {
    if i > |s| then None
    else match FirstListed(s, ds, i)
      case Some(d) => Some(Cut(i, d))
      case None => if i == |s| then None else LeftmostCut(s, ds, i + 1)
  }

  predicate NoEmpty<T(==)>(ds: seq<seq<T>>) {
    forall d | d in ds :: d != []
  }

  function Split<T(==)>(s: seq<T>, ds: seq<seq<T>>): seq<Token<T>>
    requires NoEmpty(ds)
    decreases |s|
  {
    if s == [] then []
    else match LeftmostCut(s, ds, 0)
      case None => [Token(s, None)]
      case Some(c) => [Token(s[..c.pos], Some(c.delimiter))] + Split(s[c.pos + |c.delimiter|..], ds)
  }

  function Pieces<T>(ts: seq<Token<T>>): (ps: seq<seq<T>>)
    ensures |ps| == |ts| && forall k | 0 <= k < |ts| :: ps[k] == ts[k].piece
  {
    if ts == [] then [] else [ts[0].piece] + Pieces(ts[1..])
  }

  function Ending<T>(delimiter: Option<seq<T>>): seq<T> {
    if delimiter.Some? then delimiter.value else []
  }

  /** Pieces and delimiters written out one after the other. */
  function Join<T>(ts: seq<Token<T>>): seq<T> {
    if ts == [] then []
    else ts[0].piece + Ending(ts[0].delimiter) + Join(ts[1..])
  }

  // ---- What the tokens mean ----

  /** The tokens `ts` cut `s` at every leftmost match; this does not mention how they are computed. */
  ghost predicate IsTokenization<T>(s: seq<T>, ds: seq<seq<T>>, ts: seq<Token<T>>) {
    if ts == [] then s == []
    else
      var t := ts[0];
      && s != []
      && |t.piece| <= |s|
      && t.piece == s[..|t.piece|]
      && (forall j: nat | j < |t.piece| :: FirstListed(s, ds, j).None?)
      && match t.delimiter
         case None => t.piece == s && ts == [t] && FirstListed(s, ds, |s|).None?
         case Some(d) =>
           FirstListed(s, ds, |t.piece|) == Some(d) && IsTokenization(s[|t.piece| + |d|..], ds, ts[1..])
  }

  lemma CutInside<T>(s: seq<T>, ds: seq<seq<T>>)
    requires NoEmpty(ds)
    ensures var c := LeftmostCut(s, ds, 0);
            c.Some? ==> var Cut(pos, d) := c.value; d != [] && pos + |d| <= |s| && s[pos..pos + |d|] == d
  {
    hide FirstListed, LeftmostCut;
  }

  /** The tokens of a non-empty text: the first one, and those of what follows its delimiter. */
  lemma SplitStep<T>(s: seq<T>, ds: seq<seq<T>>) returns (t: Token<T>, rest: seq<T>)
    requires NoEmpty(ds) && s != []
    ensures |rest| < |s| && Split(s, ds) == [t] + Split(rest, ds)
    ensures s == t.piece + Ending(t.delimiter) + rest
    ensures forall j: nat | j < |t.piece| :: FirstListed(s, ds, j).None?
    ensures FirstListed(s, ds, |t.piece|) == t.delimiter
    ensures t.delimiter.None? ==> rest == []
  {
    hide FirstListed, LeftmostCut, MatchesAt;
    CutInside(s, ds);
    var c := LeftmostCut(s, ds, 0);
    match c {
      case Some(Cut(pos, d)) =>
        t, rest := Token(s[..pos], Some(d)), s[pos + |d|..];
      case None =>
        t, rest := Token(s, None), [];
    }
  }

  /** A first token in front of the tokens of the rest. */
  lemma TokenizationCons<T>(s: seq<T>, ds: seq<seq<T>>, t: Token<T>, rest: seq<T>, ts: seq<Token<T>>)
    requires s != [] && s == t.piece + Ending(t.delimiter) + rest
    requires forall j: nat | j < |t.piece| :: FirstListed(s, ds, j).None?
    requires FirstListed(s, ds, |t.piece|) == t.delimiter
    requires t.delimiter.None? ==> rest == []
    requires IsTokenization(rest, ds, ts)
    ensures IsTokenization(s, ds, [t] + ts)
  {
    hide FirstListed;
    assert ([t] + ts)[1..] == ts;
    if t.delimiter.Some? {
      assert s[|t.piece| + |t.delimiter.value|..] == rest;
    }
  }

  lemma {:induction false} SplitIsTokenization<T>(s: seq<T>, ds: seq<seq<T>>)
    requires NoEmpty(ds)
    ensures IsTokenization(s, ds, Split(s, ds))
    decreases |s|
  {
    hide FirstListed, LeftmostCut;
    if s == [] {
    } else {
      var t, rest := SplitStep(s, ds);
      SplitIsTokenization(rest, ds);
      assert Split(s, ds)[1..] == Split(rest, ds);
    }
  }

  /** The first token is determined by the text. */
  lemma TokenizationHead<T>(s: seq<T>, ds: seq<seq<T>>, t: Token<T>, rest: seq<T>, ts: seq<Token<T>>)
    requires ts != [] && IsTokenization(s, ds, ts)
    requires s == t.piece + Ending(t.delimiter) + rest
    requires forall j: nat | j < |t.piece| :: FirstListed(s, ds, j).None?
    requires FirstListed(s, ds, |t.piece|) == t.delimiter
    requires t.delimiter.None? ==> rest == []
    ensures ts[0] == t && IsTokenization(rest, ds, ts[1..])
  {
    hide FirstListed;
    assert |t.piece| == |ts[0].piece|;
    if t.delimiter.Some? {
      assert s[|t.piece| + |t.delimiter.value|..] == rest;
    }
  }

  /** `Split` is the only way to cut at every leftmost match. */
  lemma {:induction false} SplitUnique<T>(s: seq<T>, ds: seq<seq<T>>, ts: seq<Token<T>>)
    requires NoEmpty(ds)
    ensures IsTokenization(s, ds, ts) <==> ts == Split(s, ds)
    decreases |s|
  {
    hide FirstListed, LeftmostCut;
    SplitIsTokenization(s, ds);
    if IsTokenization(s, ds, ts) && ts != [] {
      hide Split, IsTokenization;
      TokenizedText(s, ds, ts);
      var t, rest := SplitStep(s, ds);
      TokenizationHead(s, ds, t, rest, ts);
      SplitUnique(rest, ds, ts[1..]);
      assert ts == [ts[0]] + ts[1..];
    }
  }

  lemma TokenizedText<T>(s: seq<T>, ds: seq<seq<T>>, ts: seq<Token<T>>)
    requires IsTokenization(s, ds, ts)
    ensures s == [] <==> ts == []
  {}

  /** Nothing is lost: the pieces and the delimiters between them rebuild the text. */
  lemma {:induction false} JoinRebuilds<T>(s: seq<T>, ds: seq<seq<T>>)
    requires NoEmpty(ds)
    ensures Join(Split(s, ds)) == s
    decreases |s|
  {
    hide FirstListed, LeftmostCut;
    if s == [] {
    } else {
      var t, rest := SplitStep(s, ds);
      JoinRebuilds(rest, ds);
      assert Split(s, ds)[1..] == Split(rest, ds);
    }
  }

  /** Only the last piece can lack a delimiter, and then it is not empty. */
  lemma {:induction false} OnlyLastUndelimited<T>(s: seq<T>, ds: seq<seq<T>>, k: nat)
    requires NoEmpty(ds) && k < |Split(s, ds)|
    ensures match Split(s, ds)[k].delimiter
            case Some(d) => d in ds
            case None => k == |Split(s, ds)| - 1 && Split(s, ds)[k].piece != []
    decreases |s|
  {
    hide FirstListed, LeftmostCut;
    var t, rest := SplitStep(s, ds);
    if k == 0 {
    } else {
      OnlyLastUndelimited(rest, ds, k - 1);
    }
  }

  lemma NoneInside<T>(s: seq<T>, ds: seq<seq<T>>, n: nat, d: seq<T>, i: nat)
    requires n <= |s| && d in ds && d != [] && i + |d| <= n
    requires forall j: nat | j < n :: FirstListed(s, ds, j).None?
    ensures s[..n][i..i + |d|] != d
  {
    hide FirstListed;
    assert FirstListed(s, ds, i).None?;
    assert s[..n][i..i + |d|] == s[i..i + |d|];
  }

  /** No piece contains any delimiter. */
  lemma {:induction false} PiecesDelimiterFree<T>(s: seq<T>, ds: seq<seq<T>>, k: nat, d: seq<T>, i: nat)
    requires NoEmpty(ds) && k < |Split(s, ds)| && d in ds
    ensures var p := Split(s, ds)[k].piece;
            i + |d| <= |p| ==> p[i..i + |d|] != d
    decreases |s|
  {
    hide FirstListed, LeftmostCut, MatchesAt;
    assert d != [] && s != [];
    var t, rest := SplitStep(s, ds);
    var ts := Split(rest, ds);
    hide Split;
    assert k > 0 ==> ts[k - 1] == Split(s, ds)[k];
    if k > 0 {
      PiecesDelimiterFree(rest, ds, k - 1, d, i);
    } else if i + |d| <= |t.piece| {
      NoneInside(s, ds, |t.piece|, d, i);
      assert t.piece == s[..|t.piece|];
    }
  }

  // ---- The program ----

  lemma MatchShift<T>(s: seq<T>, d: seq<T>, start: nat, i: nat)
    requires start <= |s|
    ensures MatchesAt(s, d, start + i) == MatchesAt(s[start..], d, i)
  {
    if start + i + |d| <= |s| {
      assert s[start..][i..i + |d|] == s[start + i..start + i + |d|];
    }
  }

  /** One scan over the delimiters: the smallest position found, ties to the earliest-listed. */
  ghost predicate Scanned<T>(s: seq<T>, ds: seq<seq<T>>, start: nat, best: Option<Cut<T>>) {
    match best
    case None => forall j: nat | start <= j :: FirstListed(s, ds, j).None?
    case Some(c) =>
      && start <= c.pos
      && FirstListed(s, ds, c.pos) == Some(c.delimiter)
      && forall j: nat | start <= j < c.pos :: FirstListed(s, ds, j).None?
  }

  lemma {:induction false} FirstListedSnoc<T>(s: seq<T>, ds: seq<seq<T>>, d: seq<T>, i: nat)
    ensures FirstListed(s, ds + [d], i) ==
            if FirstListed(s, ds, i).Some? then FirstListed(s, ds, i)
            else if MatchesAt(s, d, i) then Some(d) else None
  {
    if ds == [] {
      assert ds + [d] == [d];
    } else {
      assert (ds + [d])[1..] == ds[1..] + [d];
      FirstListedSnoc(s, ds[1..], d, i);
    }
  }

  /** Taking one more delimiter into account. */
  lemma ScanStep<T>(s: seq<T>, ds: seq<seq<T>>, d: seq<T>, start: nat, best: Option<Cut<T>>)
    requires Scanned(s, ds, start, best)
    ensures var p := Find(s, d, start);
            Scanned(s, ds + [d], start,
                    if p.Some? && (best.None? || p.value < best.value.pos) then Some(Cut(p.value, d)) else best)
  {
    hide FirstListed, Find, MatchesAt;
    forall j: nat
      ensures FirstListed(s, ds + [d], j) ==
              if FirstListed(s, ds, j).Some? then FirstListed(s, ds, j)
              else if MatchesAt(s, d, j) then Some(d) else None
    {
      FirstListedSnoc(s, ds, d, j);
    }
  }

  lemma {:induction false} FirstListedShift<T>(s: seq<T>, ds: seq<seq<T>>, start: nat, i: nat)
    requires start <= |s|
    ensures FirstListed(s, ds, start + i) == FirstListed(s[start..], ds, i)
  {
    if ds == [] {
    } else {
      MatchShift(s, ds[0], start, i);
      FirstListedShift(s, ds[1..], start, i);
    }
  }

  /** A complete scan from `start` finds the leftmost cut of the rest of the text. */
  lemma ScanFindsLeftmost<T>(s: seq<T>, ds: seq<seq<T>>, start: nat, best: Option<Cut<T>>)
    requires start <= |s| && Scanned(s, ds, start, best)
    ensures LeftmostCut(s[start..], ds, 0) ==
            if best.None? then None else Some(Cut(best.value.pos - start, best.value.delimiter))
  {
    hide FirstListed, LeftmostCut;
    var c := LeftmostCut(s[start..], ds, 0);
    if best.Some? {
      FirstListedShift(s, ds, start, best.value.pos - start);
    }
    if c.Some? {
      FirstListedShift(s, ds, start, c.value.pos);
    }
  }

  lemma PiecesCons<T>(t: Token<T>, ts: seq<Token<T>>)
    ensures Pieces([t] + ts) == [t.piece] + Pieces(ts)
  {}

  lemma SplitPieces<T>(s: seq<T>, ds: seq<seq<T>>)
    requires NoEmpty(ds)
    ensures Pieces(Split(s, ds)) ==
            if s == [] then []
            else match LeftmostCut(s, ds, 0)
              case None => [s]
              case Some(c) => [s[..c.pos]] + Pieces(Split(s[c.pos + |c.delimiter|..], ds))
  {
    hide FirstListed, LeftmostCut;
    if s != [] {
      match LeftmostCut(s, ds, 0)
      case None =>
        assert Split(s, ds) == [Token(s, None)];
      case Some(c) =>
        var rest := Split(s[c.pos + |c.delimiter|..], ds);
        assert Split(s, ds) == [Token(s[..c.pos], Some(c.delimiter))] + rest;
        hide Split;
        PiecesCons(Token(s[..c.pos], Some(c.delimiter)), rest);
    }
  }

  /** What one scan from `start` contributes to the pieces. */
  lemma ScanSplits<T>(s: seq<T>, ds: seq<seq<T>>, start: nat, best: Option<Cut<T>>)
    requires NoEmpty(ds) && start < |s| && Scanned(s, ds, start, best)
    ensures best.Some? ==> start < best.value.pos + |best.value.delimiter| <= |s|
    ensures Pieces(Split(s[start..], ds)) ==
            if best.None? then [s[start..]]
            else [s[start..best.value.pos]] + Pieces(Split(s[best.value.pos + |best.value.delimiter|..], ds))
  {
    hide FirstListed, LeftmostCut, Split, Pieces;
    ScanFindsLeftmost(s, ds, start, best);
    SplitPieces(s[start..], ds);
    if best.Some? {
      var Cut(pos, d) := best.value;
      assert s[start..][..pos - start] == s[start..pos];
      assert s[start..][pos - start + |d|..] == s[pos + |d|..];
    }
  }

  // ---- Empty delimiters ----

  /** The delimiters listed before the first empty one. */
  function BeforeEmpty<T(==)>(ds: seq<seq<T>>): (r: seq<seq<T>>)
    ensures NoEmpty(r)
    ensures |r| <= |ds| && r == ds[..|r|] && (|r| < |ds| ==> ds[|r|] == [])
  {
    if ds == [] || ds[0] == [] then [] else [ds[0]] + BeforeEmpty(ds[1..])
  }

  /** The text, from `start` on, is nothing but delimiters laid end to end, earliest-listed first. */
  predicate Tiled<T(==)>(s: seq<T>, ds: seq<seq<T>>, start: nat)
    requires NoEmpty(ds)
    decreases |s| - start
  {
    start >= |s| || match FirstListed(s, ds, start)
                    case None => false
                    case Some(d) => Tiled(s, ds, start + |d|)
  }

  /** At a tiled position the listed prefix wins; elsewhere the empty delimiter matches and wins. */
  lemma {:induction false} FirstListedWithEmpty<T>(s: seq<T>, ds: seq<seq<T>>, i: nat)
    requires i <= |s| && !NoEmpty(ds)
    ensures FirstListed(s, ds, i) ==
            if FirstListed(s, BeforeEmpty(ds), i).Some? then FirstListed(s, BeforeEmpty(ds), i) else Some([])
  {
    assert s[i..i] == [];
    if ds[0] == [] {
    } else {
      assert BeforeEmpty(ds)[1..] == BeforeEmpty(ds[1..]);
      assert exists d | d in ds[1..] :: d == [] by {
        var d :| d in ds && d == [];
        assert d in ds[1..];
      }
      FirstListedWithEmpty(s, ds[1..], i);
    }
  }

  lemma {:induction false} BeforeEmptyAll<T>(ds: seq<seq<T>>)
    requires NoEmpty(ds)
    ensures BeforeEmpty(ds) == ds
  {
    if ds == [] {
    } else {
      assert ds[0] in ds && forall d | d in ds[1..] :: d in ds;
      BeforeEmptyAll(ds[1..]);
    }
  }

  /** Where the loop ends it never cuts at an empty delimiter. */
  predicate Splittable<T(==)>(s: seq<T>, ds: seq<seq<T>>, start: nat) {
    NoEmpty(ds) || Tiled(s, BeforeEmpty(ds), start)
  }

  lemma ScanIgnoresEmpty<T>(s: seq<T>, ds: seq<seq<T>>, start: nat, best: Option<Cut<T>>)
    requires start < |s| && Splittable(s, ds, start) && Scanned(s, ds, start, best)
    ensures Scanned(s, BeforeEmpty(ds), start, best)
    ensures best.Some? ==> Splittable(s, ds, best.value.pos + |best.value.delimiter|)
  {
    hide FirstListed, BeforeEmpty;
    if NoEmpty(ds) {
      BeforeEmptyAll(ds);
    } else {
      FirstListedWithEmpty(s, ds, start);
    }
  }

  method SplitString<T(==)>(str: seq<T>, delimiters: seq<seq<T>>) returns (result: seq<seq<T>>)
    requires Splittable(str, delimiters, 0)
    ensures result == Pieces(Split(str, BeforeEmpty(delimiters)))
    ensures NoEmpty(delimiters) ==> result == Pieces(Split(str, delimiters))
  {
    hide FirstListed, LeftmostCut, Find, MatchesAt, Split, Pieces, BeforeEmpty, NoEmpty, Splittable;
    ghost var ds := BeforeEmpty(delimiters);
    if NoEmpty(delimiters) { BeforeEmptyAll(delimiters); }
    result := [];
    var startPos := 0;
    assert str[0..] == str;
    while startPos < |str|
      invariant startPos <= |str| && Splittable(str, delimiters, startPos)
      invariant result + Pieces(Split(str[startPos..], ds)) == Pieces(Split(str, ds))
      decreases |str| - startPos
    {
      var minPos: Option<nat> := None;
      var delimiterLength := 0;
      ghost var best: Option<Cut<T>> := None;
      for i := 0 to |delimiters|
        invariant Scanned(str, delimiters[..i], startPos, best)
        invariant minPos == if best.Some? then Some(best.value.pos) else None
        invariant best.Some? ==> delimiterLength == |best.value.delimiter|
      {
        var position := Find(str, delimiters[i], startPos);
        ScanStep(str, delimiters[..i], delimiters[i], startPos, best);
        assert delimiters[..i + 1] == delimiters[..i] + [delimiters[i]];
        if position.Some? && (minPos.None? || position.value < minPos.value) {
          minPos := position;
          delimiterLength := |delimiters[i]|;
          best := Some(Cut(position.value, delimiters[i]));
        }
      }
      assert delimiters[..|delimiters|] == delimiters;
      ScanIgnoresEmpty(str, delimiters, startPos, best);
      ScanSplits(str, ds, startPos, best);
      if minPos.Some? {
        result := result + [str[startPos..minPos.value]];
        startPos := minPos.value + delimiterLength;
      } else {
        result := result + [str[startPos..]];
        return;
      }
    }
    SplitPieces(str[startPos..], ds);
  }

  // ---- Termination ----

  /** The start position after one iteration of the outer loop. */
  function Advance<T(==)>(s: seq<T>, ds: seq<seq<T>>, start: nat): nat {
    if start >= |s| then start
    else match LeftmostCut(s, ds, start)
      case None => |s|
      case Some(c) => c.pos + |c.delimiter|
  }

  function PositionAfter<T(==)>(s: seq<T>, ds: seq<seq<T>>, iterations: nat): nat {
    if iterations == 0 then 0 else Advance(s, ds, PositionAfter(s, ds, iterations - 1))
  }

  ghost predicate Terminates<T>(s: seq<T>, ds: seq<seq<T>>) {
    exists n: nat :: PositionAfter(s, ds, n) >= |s|
  }

  lemma AdvanceOnMatch<T>(s: seq<T>, ds: seq<seq<T>>, p: nat)
    requires p < |s| && FirstListed(s, ds, p).Some?
    ensures Advance(s, ds, p) == p + |FirstListed(s, ds, p).value|
  {
    hide FirstListed, LeftmostCut;
    var c := LeftmostCut(s, ds, p);
    assert c.Some? && c.value.pos == p;
  }

  lemma {:induction false} TiledAdvances<T>(s: seq<T>, ds: seq<seq<T>>, n: nat)
    requires !NoEmpty(ds)
    ensures Tiled(s, BeforeEmpty(ds), PositionAfter(s, ds, n)) == Tiled(s, BeforeEmpty(ds), 0)
    ensures Tiled(s, BeforeEmpty(ds), 0) ==> PositionAfter(s, ds, n) >= n || PositionAfter(s, ds, n) >= |s|
  {
    hide FirstListed, LeftmostCut, BeforeEmpty, MatchesAt;
    if n == 0 {
    } else {
      TiledAdvances(s, ds, n - 1);
      var p := PositionAfter(s, ds, n - 1);
      if p < |s| {
        FirstListedWithEmpty(s, ds, p);
        AdvanceOnMatch(s, ds, p);
      }
    }
  }

  lemma {:induction false} NonEmptyAdvances<T>(s: seq<T>, ds: seq<seq<T>>, n: nat)
    requires NoEmpty(ds)
    ensures PositionAfter(s, ds, n) >= n || PositionAfter(s, ds, n) >= |s|
  {
    hide FirstListed, LeftmostCut;
    if n == 0 {
    } else {
      NonEmptyAdvances(s, ds, n - 1);
    }
  }

  /**
   The loop ends exactly when no delimiter is empty, or the whole text is tiled by the
   delimiters listed before the first empty one.
   */
  lemma TerminatesExactly<T>(s: seq<T>, ds: seq<seq<T>>)
    ensures Terminates(s, ds) <==> Splittable(s, ds, 0)
  {
    hide FirstListed, LeftmostCut, Advance;
    if NoEmpty(ds) {
      NonEmptyAdvances(s, ds, |s|);
      assert PositionAfter(s, ds, |s|) >= |s|;
    } else if Tiled(s, BeforeEmpty(ds), 0) {
      TiledAdvances(s, ds, |s|);
      assert PositionAfter(s, ds, |s|) >= |s|;
    } else if n: nat :| PositionAfter(s, ds, n) >= |s| {
      TiledAdvances(s, ds, n);
    }
  }
}
