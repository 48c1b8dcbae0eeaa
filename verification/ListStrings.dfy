/** Every string at all, as the two list parsers take it apart. */
module ListStrings {
  import opened ListParser
  import opened ListGrammar

  // ---- split ----

  /** What ends at a separator, or with a closed quoted string right behind it. */
  datatype Segment =
    | Bare(text: string)
    | Quotation(text: string, chars: seq<QuotedChar>)

  /** What the string ends in: plain text, or a quoted string that is not closed, perhaps at a lone backslash. */
  datatype Ending =
    | Unended(text: string)
    | Unclosed(text: string, chars: seq<QuotedChar>, dangling: bool)

  predicate IsText(text: string, delim: char) {
    forall i | 0 <= i < |text| :: text[i] != '"' && text[i] != delim
  }

  predicate IsQuotedText(chars: seq<QuotedChar>) {
    forall i | 0 <= i < |chars| :: chars[i].c in {'"', '\\'} ==> chars[i].escaped
  }

  predicate IsSegment(seg: Segment, delim: char) {
    IsText(seg.text, delim) && (seg.Quotation? ==> IsQuotedText(seg.chars))
  }

  predicate IsEnding(end: Ending, delim: char) {
    IsText(end.text, delim) && (end.Unclosed? ==> IsQuotedText(end.chars))
  }

  function WriteSegment(seg: Segment, delim: char): (r: string)
    ensures r != []
  {
    match seg
    case Bare(text) => text + [delim]
    case Quotation(text, chars) => text + (['"'] + Raw(chars) + ['"'])
  }

  function WriteEnding(end: Ending): string {
    match end
    case Unended(text) => text
    case Unclosed(text, chars, dangling) => text + (['"'] + Raw(chars) + if dangling then ['\\'] else [])
  }

  function WriteAll(segs: seq<Segment>, end: Ending, delim: char): string {
    if segs == [] then WriteEnding(end) else WriteSegment(segs[0], delim) + WriteAll(segs[1..], end, delim)
  }

  /** Blanks and tabs outside quotes count for nothing. */
  function Kept(c: char): string {
    if c in " \t" then [] else [c]
  }

  function Unspaced(text: string): string {
    if text == [] then [] else Kept(text[0]) + Unspaced(text[1..])
  }

  /** r is s without its white space at the end. */
  ghost predicate IsTrim(r: string, s: string) {
    && r <= s && (r != [] ==> r[|r| - 1] !in " \t\n\r\U{000B}\U{000C}")
    && forall i | |r| <= i < |s| :: s[i] in " \t\n\r\U{000B}\U{000C}"
  }

  lemma TrimIsShort(s: string, r: string, t: string)
    requires IsTrim(r, s) && IsTrim(t, s)
    ensures |r| <= |t|
  {
    if r != [] { assert s[|r| - 1] == r[|r| - 1]; }
  }

  lemma TrimmedIff(s: string, r: string)
    ensures r == Trimmed(s) <==> IsTrim(r, s)
  {
    assert IsTrim(Trimmed(s), s);
    if IsTrim(r, s) {
      TrimIsShort(s, r, Trimmed(s));
      TrimIsShort(s, Trimmed(s), r);
    }
  }

  function SegmentText(seg: Segment): seq<string> {
    match seg
    case Bare(text) => Element(Trimmed(Unspaced(text)))
    case Quotation(text, chars) => Element(Unspaced(text) + Text(chars))
  }

  function EndingText(end: Ending): seq<string> {
    match end
    case Unended(text) => Element(Trimmed(Unspaced(text)))
    case Unclosed(text, chars, _) => Element(Unspaced(text) + Text(chars))
  }

  function AllTexts(segs: seq<Segment>, end: Ending): seq<string> {
    if segs == [] then EndingText(end) else SegmentText(segs[0]) + AllTexts(segs[1..], end)
  }

  lemma SplitChar(c: char, s: string, delim: char, e: string)
    requires c != '"' && c != delim
    ensures Elements([c] + s, delim, e) == Elements(s, delim, e + Kept(c))
  {
    assert ([c] + s)[1..] == s && e + [] == e;
  }

  lemma {:induction false} SplitText(text: string, s: string, delim: char, e: string)
    requires IsText(text, delim)
    ensures Elements(text + s, delim, e) == Elements(s, delim, e + Unspaced(text))
    decreases |text|
  {
    hide Elements;
    if text == [] {
      assert text + s == s && e + Unspaced(text) == e;
    } else {
      var kept, rest := Kept(text[0]), text[1..] + s;
      SplitText(text[1..], s, delim, e + kept);
      SplitChar(text[0], rest, delim, e);
      hide Kept;
      assert text + s == [text[0]] + rest;
      assert (e + kept) + Unspaced(text[1..]) == e + (kept + Unspaced(text[1..]));
    }
  }

  lemma SplitQuote(chars: seq<QuotedChar>, s: string, delim: char, e: string)
    requires IsQuotedText(chars)
    ensures Elements(['"'] + Raw(chars) + s, delim, e) ==
            var (rest, text) := Unquote(s, e + Text(chars)); Element(text) + Elements(rest, delim, [])
  {
    assert (['"'] + Raw(chars) + s)[1..] == Raw(chars) + s;
    UnquoteOn(chars, s, e);
  }

  lemma SplitBare(text: string, s: string, delim: char)
    requires IsText(text, delim) && delim != '"'
    ensures Elements(text + ([delim] + s), delim, []) == Element(Trimmed(Unspaced(text))) + Elements(s, delim, [])
  {
    SplitText(text, [delim] + s, delim, []);
    assert [] + Unspaced(text) == Unspaced(text) && ([delim] + s)[1..] == s;
  }

  lemma SplitClosed(text: string, chars: seq<QuotedChar>, s: string, delim: char)
    requires IsText(text, delim) && IsQuotedText(chars)
    ensures Elements(text + (['"'] + Raw(chars) + (['"'] + s)), delim, []) ==
            Element(Unspaced(text) + Text(chars)) + Elements(s, delim, [])
  {
    var close := ['"'] + s;
    SplitText(text, ['"'] + Raw(chars) + close, delim, []);
    assert [] + Unspaced(text) == Unspaced(text);
    SplitQuote(chars, close, delim, Unspaced(text));
    hide Elements, Raw, Text, Unspaced;
    assert close[1..] == s;
  }

  lemma SplitSegment(seg: Segment, s: string, delim: char)
    requires IsSegment(seg, delim) && delim != '"'
    ensures Elements(WriteSegment(seg, delim) + s, delim, []) == SegmentText(seg) + Elements(s, delim, [])
  {
    hide Elements, Raw, Text, Unspaced, Trimmed;
    match seg
    case Bare(t) =>
      assert WriteSegment(seg, delim) + s == t + ([delim] + s);
      SplitBare(t, s, delim);
    case Quotation(t, chars) =>
      assert WriteSegment(seg, delim) + s == t + (['"'] + Raw(chars) + (['"'] + s));
      SplitClosed(t, chars, s, delim);
  }

  lemma SplitEnding(end: Ending, delim: char)
    requires IsEnding(end, delim) && delim != '"'
    ensures Elements(WriteEnding(end), delim, []) == EndingText(end)
  {
    var text := Unspaced(end.text);
    assert [] + text == text && Trimmed([]) == [];
    match end
    case Unended(t) =>
      assert t + [] == t;
      SplitText(t, [], delim, []);
    case Unclosed(t, chars, dangling) =>
      var close := if dangling then ['\\'] else [];
      SplitText(t, ['"'] + Raw(chars) + close, delim, []);
      SplitQuote(chars, close, delim, text);
      assert Unquote(close, text + Text(chars)) == ([], text + Text(chars));
  }

  /** split gives the texts of the segments, quoted strings unescaped and the rest without blanks. */
  lemma {:induction false} SplitAll(segs: seq<Segment>, end: Ending, delim: char)
    requires delim != '"' && AreSegments(segs, end, delim)
    ensures Elements(WriteAll(segs, end, delim), delim, []) == AllTexts(segs, end)
    decreases |segs|
  {
    if segs == [] {
      SplitEnding(end, delim);
    } else {
      SplitAll(segs[1..], end, delim);
      SplitSegment(segs[0], WriteAll(segs[1..], end, delim), delim);
    }
  }

  /** What follows an opening quote, whatever it is. */
  lemma {:induction false} EveryQuote(s: string) returns (chars: seq<QuotedChar>, closed: bool, tail: string)
    ensures IsQuotedText(chars)
    ensures closed ==> s == Raw(chars) + ['"'] + tail
    ensures !closed ==> tail in {[], ['\\']} && s == Raw(chars) + tail
    decreases |s|
  {
    if s == [] || s == ['\\'] {
      chars, closed, tail := [], false, s;
      assert Raw(chars) + tail == s;
    } else if s[0] == '"' {
      chars, closed, tail := [], true, s[1..];
      assert s == Raw(chars) + ['"'] + tail;
    } else {
      var first := if s[0] == '\\' then QuotedChar(s[1], true) else QuotedChar(s[0], false);
      var n := |RawChar(first)|;
      assert s == RawChar(first) + s[n..];
      var rest;
      rest, closed, tail := EveryQuote(s[n..]);
      chars := [first] + rest;
      assert chars[1..] == rest;
      assert Raw(chars) == RawChar(first) + Raw(rest);
      assert closed ==> s == Raw(chars) + ['"'] + tail;
      assert !closed ==> s == Raw(chars) + tail;
    }
  }

  /** The segments with a character put in front. */
  function InFront(c: char, segs: seq<Segment>, end: Ending): (seq<Segment>, Ending) {
    if segs == [] then ([], end.(text := [c] + end.text))
    else ([segs[0].(text := [c] + segs[0].text)] + segs[1..], end)
  }

  ghost predicate AreSegments(segs: seq<Segment>, end: Ending, delim: char) {
    IsEnding(end, delim) && forall i | 0 <= i < |segs| :: IsSegment(segs[i], delim)
  }

  lemma EndingInFront(c: char, end: Ending)
    ensures WriteEnding(end.(text := [c] + end.text)) == [c] + WriteEnding(end)
  {}

  lemma SegmentInFront(c: char, seg: Segment, delim: char)
    ensures WriteSegment(seg.(text := [c] + seg.text), delim) == [c] + WriteSegment(seg, delim)
  {}

  lemma InFrontAre(c: char, segs: seq<Segment>, end: Ending, delim: char)
    requires AreSegments(segs, end, delim) && c != delim && c != '"'
    ensures var (segs', end') := InFront(c, segs, end); AreSegments(segs', end', delim)
  {}

  lemma InFrontWrites(c: char, segs: seq<Segment>, end: Ending, delim: char)
    requires AreSegments(segs, end, delim) && c != delim && c != '"'
    ensures var (segs', end') := InFront(c, segs, end);
            AreSegments(segs', end', delim) && WriteAll(segs', end', delim) == [c] + WriteAll(segs, end, delim)
  {
    InFrontAre(c, segs, end, delim);
    hide AreSegments;
    var (segs', end') := InFront(c, segs, end);
    if segs == [] {
      EndingInFront(c, end);
    } else {
      SegmentInFront(c, segs[0], delim);
      hide WriteSegment;
      assert segs'[1..] == segs[1..];
    }
  }

  lemma SegmentFirst(seg: Segment, segs: seq<Segment>, end: Ending, delim: char)
    requires IsSegment(seg, delim) && AreSegments(segs, end, delim)
    ensures AreSegments([seg] + segs, end, delim)
    ensures WriteAll([seg] + segs, end, delim) == WriteSegment(seg, delim) + WriteAll(segs, end, delim)
  {
    assert ([seg] + segs)[1..] == segs;
  }

  /** Every string is a sequence of segments and an ending, so that SplitAll speaks of every string. */
  lemma {:induction false} EveryStringSplits(s: string, delim: char) returns (segs: seq<Segment>, end: Ending)
    requires delim != '"'
    ensures AreSegments(segs, end, delim) && WriteAll(segs, end, delim) == s
    decreases |s|, 1
  {
    hide AreSegments, WriteAll, InFront, Raw;
    if s == [] {
      segs, end := [], Unended([]);
      OnlyEnding(end, delim);
    } else if s[0] == '"' {
      segs, end := EveryQuotation(s, delim);
    } else {
      var more, last := EveryStringSplits(s[1..], delim);
      assert s == [s[0]] + s[1..];
      if s[0] == delim {
        SegmentFirst(Bare([]), more, last, delim);
        segs, end := [Bare([])] + more, last;
        assert [] + [delim] == [s[0]];
      } else {
        InFrontWrites(s[0], more, last, delim);
        var front := InFront(s[0], more, last);
        segs, end := front.0, front.1;
      }
    }
  }

  lemma OnlyEnding(end: Ending, delim: char)
    requires IsEnding(end, delim)
    ensures AreSegments([], end, delim) && WriteAll([], end, delim) == WriteEnding(end)
  {}

  lemma {:induction false} EveryQuotation(s: string, delim: char) returns (segs: seq<Segment>, end: Ending)
    requires delim != '"' && s != [] && s[0] == '"'
    ensures AreSegments(segs, end, delim) && WriteAll(segs, end, delim) == s
    decreases |s|, 0
  {
    hide AreSegments, WriteAll, Raw;
    var chars, closed, tail := EveryQuote(s[1..]);
    if closed {
      var more;
      assert |tail| < |s|;
      more, end := EveryStringSplits(tail, delim);
      SegmentFirst(Quotation([], chars), more, end, delim);
      segs := [Quotation([], chars)] + more;
      assert s == ([] + (['"'] + Raw(chars) + ['"'])) + tail;
    } else {
      segs, end := [], Unclosed([], chars, tail != []);
      OnlyEnding(end, delim);
      assert s == [] + (['"'] + Raw(chars) + tail);
    }
  }

  // ---- ListIterator ----

  /** A character that is skipped, an empty quoted string, a quoted string, or a token and what ends it. */
  datatype Piece =
    | Skip(c: char)
    | Empty
    | Quote(text: string)
    | Tok(token: string, sep: char)

  /** What the string ends in: nothing, a lone quote, a quoted string that is not closed, or a token. */
  datatype Rest =
    | Done
    | LoneQuote
    | OpenQuote(text: string)
    | LastToken(token: string)

  predicate IsBare(token: string) {
    token != [] && token[0] != '"' && forall i | 0 <= i < |token| :: token[i] !in ", \t"
  }

  predicate IsPiece(p: Piece) {
    match p
    case Skip(c) => c in ", \t"
    case Empty => true
    case Quote(text) => text != [] && '"' !in text
    case Tok(token, sep) => IsBare(token) && sep in ", \t"
  }

  predicate IsRest(r: Rest) {
    match r
    case OpenQuote(text) => text != [] && '"' !in text
    case LastToken(token) => IsBare(token)
    case _ => true
  }

  function WritePiece(p: Piece): string {
    match p
    case Skip(c) => [c]
    case Empty => ['"', '"']
    case Quote(text) => ['"'] + text + ['"']
    case Tok(token, sep) => token + [sep]
  }

  function WriteRest(r: Rest): string {
    match r
    case Done => []
    case LoneQuote => ['"']
    case OpenQuote(text) => ['"'] + text
    case LastToken(token) => token
  }

  function WritePieces(ps: seq<Piece>, r: Rest): string {
    if ps == [] then WriteRest(r) else WritePiece(ps[0]) + WritePieces(ps[1..], r)
  }

  function PieceValue(p: Piece): seq<string> {
    match p
    case Quote(text) => [text]
    case Tok(token, _) => [token]
    case _ => []
  }

  function RestValue(r: Rest): seq<string> {
    match r
    case OpenQuote(text) => [text]
    case LastToken(token) => [token]
    case _ => []
  }

  function PieceValues(ps: seq<Piece>, r: Rest): seq<string> {
    if ps == [] then RestValue(r) else PieceValue(ps[0]) + PieceValues(ps[1..], r)
  }

  lemma WalkQuote(text: string, s: string)
    requires text != [] && '"' !in text
    ensures Values(['"'] + text + ['"'] + s) == [text] + Values(s)
  {
    var w, n := ['"'] + text + ['"'] + s, |text|;
    assert w[1..] == text + ['"'] + s && w[1] == text[0];
    UpToQuoteIs(w[1..], n);
    assert w[1..][..n] == text && w[2 + n..] == s;
  }

  lemma WalkPiece(p: Piece, s: string)
    requires IsPiece(p)
    ensures Values(WritePiece(p) + s) == PieceValue(p) + Values(s)
  {
    var w := WritePiece(p) + s;
    match p
    case Skip(c) =>
      assert w[1..] == s;
    case Empty =>
      assert w[2..] == s;
    case Quote(text) => WalkQuote(text, s);
    case Tok(token, sep) =>
      assert w == token + ([sep] + s);
      WalkToken(token, [sep] + s);
      assert ([sep] + s)[1..] == s;
  }

  lemma WalkRest(r: Rest)
    requires IsRest(r)
    ensures Values(WriteRest(r)) == RestValue(r)
  {
    match r
    case OpenQuote(text) =>
      var w := ['"'] + text;
      assert w[1..] == text && w[1] == text[0];
      UpToQuoteIs(text, |text|);
      assert text[..|text|] == text;
    case LastToken(token) =>
      assert token + [] == token;
      WalkToken(token, []);
    case _ =>
  }

  /** A walk meets the quoted strings and the tokens, in order. */
  lemma {:induction false} WalkAll(ps: seq<Piece>, r: Rest)
    requires IsRest(r) && forall i | 0 <= i < |ps| :: IsPiece(ps[i])
    ensures Values(WritePieces(ps, r)) == PieceValues(ps, r)
    decreases |ps|
  {
    if ps == [] {
      WalkRest(r);
    } else {
      WalkAll(ps[1..], r);
      WalkPiece(ps[0], WritePieces(ps[1..], r));
    }
  }

  /** The characters before the first one that stops. */
  lemma {:induction false} UpTo(s: string, stops: string) returns (n: nat)
    ensures n <= |s| && (forall i | 0 <= i < n :: s[i] !in stops) && (n < |s| ==> s[n] in stops)
    decreases |s|
  {
    if s == [] || s[0] in stops {
      n := 0;
    } else {
      var k := UpTo(s[1..], stops);
      n := k + 1;
      assert forall i | 0 < i < n :: s[i] == s[1..][i - 1];
    }
  }

  lemma FirstPiece(s: string) returns (p: Piece, r: Rest, n: nat)
    requires s != []
    ensures n <= |s| && if n > 0 then IsPiece(p) && WritePiece(p) == s[..n] else IsRest(r) && WriteRest(r) == s
  {
    p, r, n := Empty, LoneQuote, 0;
    if s[0] in ", \t" {
      p, n := Skip(s[0]), 1;
    } else if s[0] == '"' {
      var k := UpTo(s[1..], "\"");
      var text := s[1..][..k];
      if k + 1 == |s| {
        r := if text == [] then LoneQuote else OpenQuote(text);
        assert s == ['"'] + text;
      } else {
        p, n := if text == [] then Empty else Quote(text), k + 2;
        assert s[..n] == ['"'] + text + ['"'];
      }
    } else {
      var k := UpTo(s, ", \t");
      if k == |s| {
        r := LastToken(s);
      } else {
        p, n := Tok(s[..k], s[k]), k + 1;
        assert s[..n] == s[..k] + [s[k]];
      }
    }
  }

  /** Every string is a sequence of pieces and a rest, so that WalkAll speaks of every string. */
  lemma {:induction false} EveryStringWalks(s: string) returns (ps: seq<Piece>, r: Rest)
    ensures IsRest(r) && (forall i | 0 <= i < |ps| :: IsPiece(ps[i])) && WritePieces(ps, r) == s
    decreases |s|
  {
    if s == [] {
      ps, r := [], Done;
    } else {
      var p, end, n := FirstPiece(s);
      if n == 0 {
        ps, r := [], end;
      } else {
        var more;
        more, r := EveryStringWalks(s[n..]);
        ps := [p] + more;
        assert ps[1..] == more && s == s[..n] + s[n..];
      }
    }
  }

  /** tokenInList finds a token in a written list exactly when some word of it, as written, is that token up to case. */
  lemma TokenFoundIff(lead: string, items: seq<Item>, token: string)
    requires IsGap(lead, ',') && IsList(items, ',') && NoQuotes(items) && token != []
    ensures (exists v | v in Values(lead + WriteList(items)) :: SameButCase(v, token)) <==>
            exists i | 0 <= i < |items| :: SameButCase(WordRaw(items[i].word), token)
  {
    WalkWritten(lead, items);
    hide *;
    forall i | 0 <= i < |items| && SameButCase(WordRaw(items[i].word), token)
      ensures WordRaw(items[i].word) in Raws(items)
    {
      NonemptyLike(WordRaw(items[i].word), token);
      RawsMember(items, WordRaw(items[i].word));
    }
    if v :| v in Raws(items) && SameButCase(v, token) {
      RawsMember(items, v);
    }
  }

  lemma NonemptyLike(v: string, token: string)
    requires SameButCase(v, token) && token != []
    ensures v != []
  {}

  lemma {:induction false} RawsMember(items: seq<Item>, v: string)
    ensures v in Raws(items) <==> v != [] && exists i | 0 <= i < |items| :: WordRaw(items[i].word) == v
    decreases |items|
  {
    if items != [] {
      RawsMember(items[1..], v);
      hide WordRaw;
      if i :| 0 <= i < |items| && WordRaw(items[i].word) == v {
        assert i > 0 ==> items[i] == items[1..][i - 1];
      }
      if v in Raws(items[1..]) {
        var i :| 0 <= i < |items[1..]| && WordRaw(items[1..][i].word) == v;
        assert items[i + 1] == items[1..][i];
      }
    }
  }
}
