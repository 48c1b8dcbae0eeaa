/** Every way of writing a list (section 2.1 of RFC 2616) and what the two parsers make of it. */
module ListGrammar {
  import opened ListParser

  /** A character of a quoted string, written as itself or as a quoted-pair. */
  datatype QuotedChar = QuotedChar(c: char, escaped: bool)

  /** `trail` is white space other than blanks and tabs, which a token does not end in. */
  datatype Word =
    | Quoted(chars: seq<QuotedChar>)
    | Token(token: string, trail: string)

  /** A word followed by separators and linear white space. */
  datatype Item = Item(word: Word, gap: string)

  function Text(chars: seq<QuotedChar>): (r: string)
    ensures |r| == |chars|
  {
    if chars == [] then [] else [chars[0].c] + Text(chars[1..])
  }

  function RawChar(q: QuotedChar): string {
    if q.escaped then ['\\', q.c] else [q.c]
  }

  function Raw(chars: seq<QuotedChar>): (r: string)
    ensures |r| >= |chars|
    ensures r == [] <==> chars == []
  {
    if chars == [] then []
    else RawChar(chars[0]) + Raw(chars[1..])
  }

  function WordText(w: Word): string {
    match w
    case Quoted(chars) => Text(chars)
    case Token(token, _) => token
  }

  function WordRaw(w: Word): string {
    match w
    case Quoted(chars) => Raw(chars)
    case Token(token, trail) => token + trail
  }

  function Write(w: Word): string {
    match w
    case Quoted(chars) => ['"'] + Raw(chars) + ['"']
    case Token(token, trail) => token + trail
  }

  function WriteList(items: seq<Item>): string {
    if items == [] then [] else Write(items[0].word) + items[0].gap + WriteList(items[1..])
  }

  /** Separators, blanks and tabs. */
  predicate IsGap(gap: string, delim: char) {
    forall i | 0 <= i < |gap| :: gap[i] == delim || gap[i] == ' ' || gap[i] == '\t'
  }

  predicate IsTrail(trail: string, delim: char) {
    forall i | 0 <= i < |trail| :: trail[i] in "\n\r\U{000B}\U{000C}" && trail[i] != delim
  }

  predicate IsTokenText(token: string, delim: char) {
    forall i | 0 <= i < |token| :: token[i] !in "\" \t" && token[i] != delim
  }

  /** Quotes and backslashes are escaped; tokens hold no quote, separator, blank or tab and end in no white space. */
  predicate IsWord(w: Word, delim: char) {
    match w
    case Quoted(chars) => forall i | 0 <= i < |chars| :: chars[i].c in {'"', '\\'} ==> chars[i].escaped
    case Token(token, trail) =>
      && token != [] && token[|token| - 1] !in "\n\r\U{000B}\U{000C}"
      && IsTokenText(token, delim) && IsTrail(trail, delim)
  }

  /** A separator follows every token but the last word. */
  predicate IsList(items: seq<Item>, delim: char) {
    forall i | 0 <= i < |items| ::
      && IsWord(items[i].word, delim)
      && IsGap(items[i].gap, delim)
      && (items[i].word.Token? && i < |items| - 1 ==> delim in items[i].gap)
  }

  /** The non-empty texts in order. */
  function Texts(items: seq<Item>): seq<string> {
    if items == [] then [] else Element(WordText(items[0].word)) + Texts(items[1..])
  }

  function Raws(items: seq<Item>): seq<string> {
    if items == [] then [] else Element(WordRaw(items[0].word)) + Raws(items[1..])
  }

  predicate Separates(delim: char) {
    delim != '"' && delim != ' ' && delim != '\t'
  }

  // ---- split ----

  lemma {:induction false} SplitGap(gap: string, s: string, delim: char)
    requires IsGap(gap, delim) && Separates(delim)
    ensures Elements(gap + s, delim, []) == Elements(s, delim, [])
    decreases |gap|
  {
    if gap == [] {
      assert gap + s == s;
    } else {
      assert (gap + s)[1..] == gap[1..] + s;
      SplitGap(gap[1..], s, delim);
    }
  }

  lemma {:induction false} SplitGapAfter(gap: string, s: string, delim: char, e: string)
    requires IsGap(gap, delim) && Separates(delim)
    requires s == [] || delim in gap
    ensures Elements(gap + s, delim, e) == Element(Trimmed(e)) + Elements(s, delim, [])
    decreases |gap|
  {
    if gap == [] {
      assert gap + s == s;
      assert Trimmed([]) == [];
    } else {
      assert (gap + s)[1..] == gap[1..] + s;
      if gap[0] == delim {
        SplitGap(gap[1..], s, delim);
      } else {
        SplitGapAfter(gap[1..], s, delim, e);
      }
    }
  }

  lemma {:induction false} SplitToken(token: string, s: string, delim: char, e: string)
    requires IsTokenText(token, delim)
    ensures Elements(token + s, delim, e) == Elements(s, delim, e + token)
    decreases |token|
  {
    if token == [] {
      assert token + s == s && e + token == e;
    } else {
      assert (token + s)[1..] == token[1..] + s;
      assert e + [token[0]] + token[1..] == e + token;
      SplitToken(token[1..], s, delim, e + [token[0]]);
    }
  }

  lemma UnquoteChar(q: QuotedChar, s: string, e: string)
    requires q.c in {'"', '\\'} ==> q.escaped
    ensures Unquote(RawChar(q) + s, e) == Unquote(s, e + [q.c])
  {
    var w := RawChar(q) + s;
    assert w[|RawChar(q)|..] == s;
  }

  lemma {:induction false} UnquoteOn(chars: seq<QuotedChar>, s: string, e: string)
    requires forall i | 0 <= i < |chars| :: chars[i].c in {'"', '\\'} ==> chars[i].escaped
    ensures Unquote(Raw(chars) + s, e) == Unquote(s, e + Text(chars))
    decreases |chars|
  {
    hide Unquote;
    if chars == [] {
      assert Raw(chars) + s == s && e + Text(chars) == e;
    } else {
      var head, rest, text := RawChar(chars[0]), Raw(chars[1..]), Text(chars[1..]);
      UnquoteOn(chars[1..], s, e + [chars[0].c]);
      UnquoteChar(chars[0], rest + s, e);
      assert Raw(chars) == head + rest && Text(chars) == [chars[0].c] + text;
      hide Raw, Text, RawChar;
      assert e + [chars[0].c] + text == e + ([chars[0].c] + text);
      assert head + rest + s == head + (rest + s);
    }
  }

  lemma SplitQuoted(chars: seq<QuotedChar>, s: string, delim: char)
    requires IsWord(Quoted(chars), delim)
    ensures Elements(['"'] + Raw(chars) + ['"'] + s, delim, []) == Element(Text(chars)) + Elements(s, delim, [])
  {
    var w := ['"'] + Raw(chars) + ['"'] + s;
    assert w[1..] == Raw(chars) + (['"'] + s);
    UnquoteOn(chars, ['"'] + s, []);
    assert [] + Text(chars) == Text(chars) && (['"'] + s)[1..] == s;
  }

  lemma SplitItem(item: Item, s: string, delim: char)
    requires IsWord(item.word, delim) && IsGap(item.gap, delim) && Separates(delim)
    requires item.word.Token? && s != [] ==> delim in item.gap
    ensures Elements(Write(item.word) + item.gap + s, delim, [])
      == Element(WordText(item.word)) + Elements(s, delim, [])
  {
    var w := Write(item.word) + item.gap + s;
    match item.word
    case Quoted(chars) =>
      assert w == ['"'] + Raw(chars) + ['"'] + (item.gap + s);
      SplitQuoted(chars, item.gap + s, delim);
      SplitGap(item.gap, s, delim);
    case Token(token, trail) =>
      assert w == token + trail + (item.gap + s);
      SplitTokenItem(token, trail, item.gap, s, delim);
  }

  lemma SplitTokenItem(token: string, trail: string, gap: string, s: string, delim: char)
    requires IsWord(Token(token, trail), delim) && IsGap(gap, delim) && Separates(delim) && (s != [] ==> delim in gap)
    ensures Elements(token + trail + (gap + s), delim, []) == [token] + Elements(s, delim, [])
  {
    var text := token + trail;
    SplitToken(text, gap + s, delim, []);
    SplitGapAfter(gap, s, delim, text);
    assert [] + text == text;
    hide Elements;
    TrimmedToken(token, trail);
  }

  lemma {:induction false} TrimmedToken(token: string, trail: string)
    requires token != [] && token[|token| - 1] !in " \t\n\r\U{000B}\U{000C}"
    requires forall i | 0 <= i < |trail| :: trail[i] in " \t\n\r\U{000B}\U{000C}"
    ensures Trimmed(token + trail) == token
    decreases |trail|
  {
    if trail == [] {
      assert token + trail == token;
    } else {
      var n := |trail| - 1;
      assert (token + trail)[..|token| + n] == token + trail[..n];
      TrimmedToken(token, trail[..n]);
    }
  }

  lemma WriteNonempty(items: seq<Item>, delim: char)
    requires IsList(items, delim)
    ensures WriteList(items) == [] <==> items == []
  {
    if items != [] {
      assert Write(items[0].word) != [];
    }
  }

  /** split undoes every way of writing a list. */
  lemma {:induction false} SplitWritten(lead: string, items: seq<Item>, delim: char)
    requires IsGap(lead, delim) && IsList(items, delim) && Separates(delim)
    ensures Elements(lead + WriteList(items), delim, []) == Texts(items)
    decreases |items|
  {
    SplitGap(lead, WriteList(items), delim);
    if items != [] {
      SplitWritten([], items[1..], delim);
      assert [] + WriteList(items[1..]) == WriteList(items[1..]);
      WriteNonempty(items[1..], delim);
      SplitItem(items[0], WriteList(items[1..]), delim);
    }
  }

  // ---- ListIterator ----

  predicate NoQuotes(items: seq<Item>) {
    forall i | 0 <= i < |items| && items[i].word.Quoted? ::
      forall j | 0 <= j < |items[i].word.chars| :: items[i].word.chars[j].c != '"'
  }

  lemma {:induction false} WalkGap(gap: string, s: string)
    requires IsGap(gap, ',')
    ensures Advance(gap + s) == Advance(s) && Values(gap + s) == Values(s)
    decreases |gap|
  {
    if gap == [] {
      assert gap + s == s;
    } else {
      assert (gap + s)[1..] == gap[1..] + s;
      WalkGap(gap[1..], s);
    }
  }

  lemma {:induction false} RawHasNoQuote(chars: seq<QuotedChar>)
    requires forall j | 0 <= j < |chars| :: chars[j].c != '"'
    ensures forall k | 0 <= k < |Raw(chars)| :: Raw(chars)[k] != '"'
    decreases |chars|
  {
    if chars != [] {
      RawHasNoQuote(chars[1..]);
    }
  }

  lemma WalkQuoted(chars: seq<QuotedChar>, s: string)
    requires forall j | 0 <= j < |chars| :: chars[j].c != '"'
    ensures Values(['"'] + Raw(chars) + ['"'] + s) == Element(Raw(chars)) + Values(s)
  {
    var w := ['"'] + Raw(chars) + ['"'] + s;
    RawHasNoQuote(chars);
    var n := |Raw(chars)|;
    if chars == [] {
      assert w[2..] == s;
    } else {
      assert w[1..] == Raw(chars) + ['"'] + s;
      assert w[1] == Raw(chars)[0];
      UpToQuoteIs(w[1..], n);
      assert w[1..][..n] == Raw(chars) && w[2 + n..] == s;
    }
  }

  lemma WalkToken(token: string, s: string)
    requires token != [] && token[0] != '"' && forall i | 0 <= i < |token| :: token[i] !in ", \t"
    requires s == [] || s[0] in ", \t"
    ensures Values(token + s) == [token] + Values(s)
  {
    UpToSeparatorIs(token + s, |token|);
    assert (token + s)[|token|..] == s;
  }

  lemma WalkItem(item: Item, s: string)
    requires IsWord(item.word, ',') && IsGap(item.gap, ',') && NoQuotes([item])
    requires item.word.Token? && s != [] ==> ',' in item.gap
    ensures Values(Write(item.word) + item.gap + s) == Element(WordRaw(item.word)) + Values(s)
  {
    var w := Write(item.word) + item.gap + s;
    WalkGap(item.gap, s);
    assert w == Write(item.word) + (item.gap + s);
    match item.word
    case Quoted(chars) =>
      assert [item][0] == item;
      WalkQuoted(chars, item.gap + s);
    case Token(token, trail) =>
      WalkToken(token + trail, item.gap + s);
  }

  /** A walk meets the words as written, escapes included, when no quoted text holds a quote. */
  lemma {:induction false} WalkWritten(lead: string, items: seq<Item>)
    requires IsGap(lead, ',') && IsList(items, ',') && NoQuotes(items)
    ensures Values(lead + WriteList(items)) == Raws(items)
    decreases |items|
  {
    WalkGap(lead, WriteList(items));
    if items != [] {
      WalkWritten([], items[1..]);
      assert [] + WriteList(items[1..]) == WriteList(items[1..]);
      WriteNonempty(items[1..], ',');
      WalkItem(items[0], WriteList(items[1..]));
    }
  }

  // ---- The two parsers compared ----

  predicate Unescaped(chars: seq<QuotedChar>) {
    forall j | 0 <= j < |chars| :: !chars[j].escaped
  }

  /** Nothing is escaped, and a token is not followed by white space other than blanks and tabs. */
  predicate Plain(w: Word) {
    match w
    case Quoted(chars) => Unescaped(chars)
    case Token(_, trail) => trail == []
  }

  lemma {:induction false} RawIsText(chars: seq<QuotedChar>)
    ensures |Raw(chars)| == |Text(chars)| <==> Unescaped(chars)
    ensures Unescaped(chars) ==> Raw(chars) == Text(chars)
    decreases |chars|
  {
    if chars != [] {
      RawIsText(chars[1..]);
      assert Unescaped(chars) <==> !chars[0].escaped && Unescaped(chars[1..]);
    }
  }

  lemma {:induction false} TextAt(chars: seq<QuotedChar>, j: nat)
    requires j < |chars|
    ensures Text(chars)[j] == chars[j].c
    decreases |chars|
  {
    if j > 0 {
      TextAt(chars[1..], j - 1);
    }
  }

  /** On an escaped quoted string the iterator stops at another value than its text. */
  lemma WalkEscaped(chars: seq<QuotedChar>, s: string)
    requires IsWord(Quoted(chars), ',') && !Unescaped(chars)
    ensures var values := Values(['"'] + Raw(chars) + ['"'] + s); values != [] && values[0] != Text(chars)
  {
    if j :| 0 <= j < |chars| && chars[j].c == '"' {
      var w := ['"'] + Raw(chars) + ['"'] + s;
      TextAt(chars, j);
      assert w[1] == Raw(chars)[0] != '"';
      assert UpToQuote(w[1..]) != [];
    } else {
      WalkQuoted(chars, s);
      RawIsText(chars);
    }
  }

  lemma SameTail(head: seq<string>, a: seq<string>, b: seq<string>)
    ensures head + a == head + b <==> a == b
  {
    assert (head + a)[|head|..] == a && (head + b)[|head|..] == b;
  }

  predicate Agree(s: string) {
    Values(s) == Elements(s, ',', [])
  }

  lemma ItemAgrees(item: Item, s: string)
    requires IsWord(item.word, ',') && IsGap(item.gap, ',')
    requires item.word.Token? && s != [] ==> ',' in item.gap
    ensures Agree(Write(item.word) + item.gap + s) <==> Plain(item.word) && Agree(s)
  {
    hide Values, Elements;
    SplitItem(item, s, ',');
    var w := Write(item.word) + item.gap + s;
    if item.word.Token? {
      WalkItem(item, s);
      assert Values(w)[0] == item.word.token + item.word.trail && Elements(w, ',', [])[0] == item.word.token;
      assert item.word.trail == [] <==> item.word.token + item.word.trail == item.word.token;
      SameTail([item.word.token], Values(s), Elements(s, ',', []));
    } else if Unescaped(item.word.chars) {
      WalkItem(item, s);
      RawIsText(item.word.chars);
      SameTail(Element(Text(item.word.chars)), Values(s), Elements(s, ',', []));
    } else {
      WalkEscaped(item.word.chars, item.gap + s);
      assert w == Write(item.word) + (item.gap + s);
    }
  }

  /** The iterator yields what split yields exactly when nothing is escaped and no token is followed by other white
      space than blanks and tabs. */
  lemma {:induction false} ParsersAgree(lead: string, items: seq<Item>)
    requires IsGap(lead, ',') && IsList(items, ',')
    ensures Agree(lead + WriteList(items)) <==> forall i | 0 <= i < |items| :: Plain(items[i].word)
    decreases |items|
  {
    WalkGap(lead, WriteList(items));
    SplitGap(lead, WriteList(items), ',');
    if items == [] {
      assert Trimmed([]) == [];
    } else {
      hide Values, Elements, Write;
      ParsersAgree([], items[1..]);
      assert [] + WriteList(items[1..]) == WriteList(items[1..]);
      WriteNonempty(items[1..], ',');
      ItemAgrees(items[0], WriteList(items[1..]));
      assert forall i | 1 <= i < |items| :: items[i] == items[1..][i - 1];
    }
  }
}
