/** Comma separated lists of tokens and quoted strings (sections 2.1 and 2.2 of RFC 2616). */
module ListParser {

  predicate IsLws(c: char) {
    c == ' ' || c == '\t'
  }

  predicate IsWhite(c: char) {
    c in {' ', '\U{000C}', '\n', '\r', '\t', '\U{000B}'}
  }

  // ---- split ----

  function Trimmed(s: string): (r: string)
    ensures r <= s
    ensures r != [] ==> !IsWhite(r[|r| - 1])
    ensures forall i | |r| <= i < |s| :: IsWhite(s[i])
  {
    if s == [] || !IsWhite(s[|s| - 1]) then s else Trimmed(s[..|s| - 1])
  }

  method TrimRight(s: string) returns (r: string)
    ensures r == Trimmed(s)
  {
    var last := |s|;
    if last == 0 {
      return s;
    }
    while true
      invariant 0 < last <= |s|
      invariant Trimmed(s[..last]) == Trimmed(s)
      decreases last
    {
      last := last - 1;
      if !IsWhite(s[last]) {
        return s[..last + 1];
      }
      assert s[..last + 1][..last] == s[..last];
      if last == 0 {
        return [];
      }
    }
  }

  function Element(e: string): seq<string> {
    if e == [] then [] else [e]
  }

  /** The rest of a quoted string: what follows its closing quote, and its text appended to e. */
  function Unquote(s: string, e: string): (r: (string, string))
    ensures |r.0| <= |s|
    decreases |s|
  {
    if s == [] then (s, e)
    else if s[0] == '"' then (s[1..], e)
    else if s[0] != '\\' then Unquote(s[1..], e + [s[0]])
    else if |s| == 1 then (s[1..], e)
    else Unquote(s[2..], e + [s[1]])
  }

  /** The elements still to come when e has been collected and s is left. */
  function Elements(s: string, delim: char, e: string): seq<string>
    decreases |s|
  {
    if s == [] then Element(Trimmed(e))
    else if s[0] == '"' then
      var (rest, text) := Unquote(s[1..], e);
      Element(text) + Elements(rest, delim, [])
    else if s[0] == delim then Element(Trimmed(e)) + Elements(s[1..], delim, [])
    else if IsLws(s[0]) then Elements(s[1..], delim, e)
    else Elements(s[1..], delim, e + [s[0]])
  }

  method ScanQuoted(s: string, start: nat, e: string) returns (iter: nat, text: string)
    requires start <= |s|
    ensures start <= iter <= |s| && (s[iter..], text) == Unquote(s[start..], e)
  {
    iter, text := start, e;
    while iter != |s|
      invariant start <= iter <= |s|
      invariant Unquote(s[iter..], text) == Unquote(s[start..], e)
    {
      if s[iter] == '"' {
        iter := iter + 1;
        break;
      }
      if s[iter] == '\\' {
        iter := iter + 1;
        if iter != |s| {
          text, iter := text + [s[iter]], iter + 1;
        }
      } else {
        text, iter := text + [s[iter]], iter + 1;
      }
    }
  }

  method Split(s: string, delim: char) returns (result: seq<string>)
    ensures result == Elements(s, delim, [])
  {
    hide Trimmed, Unquote;
    result := [];
    var iter, e: string := 0, [];
    while iter != |s|
      invariant iter <= |s|
      invariant result + Elements(s[iter..], delim, e) == Elements(s, delim, [])
    {
      if s[iter] == '"' {
        iter, e := ScanQuoted(s, iter + 1, e);
        if e != [] {
          result, e := result + [e], [];
        }
      } else if s[iter] == delim {
        e := TrimRight(e);
        if e != [] {
          result, e := result + [e], [];
        }
        iter := iter + 1;
      } else if IsLws(s[iter]) {
        iter := iter + 1;
      } else {
        e, iter := e + [s[iter]], iter + 1;
      }
    }
    assert Trimmed([]) == [];
    if e != [] {
      e := TrimRight(e);
      if e != [] {
        result := result + [e];
      }
    }
  }

  // ---- ListIterator ----

  /** The text before the first closing quote. */
  function UpToQuote(s: string): (r: string)
    ensures r <= s && '"' !in r
  {
    if s == [] || s[0] == '"' then [] else [s[0]] + UpToQuote(s[1..])
  }

  lemma {:induction false} UpToQuoteIs(s: string, n: nat)
    requires n <= |s| && (n == |s| || s[n] == '"')
    requires forall k | 0 <= k < n :: s[k] != '"'
    ensures UpToQuote(s) == s[..n]
    decreases n
  {
    if n > 0 {
      UpToQuoteIs(s[1..], n - 1);
      assert s[..n] == [s[0]] + s[1..][..n - 1];
    }
  }

  predicate EndsToken(c: char) {
    c == ',' || IsLws(c)
  }

  function UpToSeparator(s: string): (r: string)
    ensures r <= s
  {
    if s == [] || EndsToken(s[0]) then [] else [s[0]] + UpToSeparator(s[1..])
  }

  lemma {:induction false} UpToSeparatorIs(s: string, n: nat)
    requires n <= |s| && (n == |s| || EndsToken(s[n]))
    requires forall k | 0 <= k < n :: !EndsToken(s[k])
    ensures UpToSeparator(s) == s[..n]
    decreases n
  {
    if n > 0 {
      UpToSeparatorIs(s[1..], n - 1);
      assert s[..n] == [s[0]] + s[1..][..n - 1];
    }
  }

  /** One increment: what is left afterwards, and the value the iterator stands on. */
  function Advance(s: string): (r: (string, string))
    ensures |r.0| + |r.1| <= |s|
    ensures r.1 == [] ==> r.0 == []
    decreases |s|
  {
    if s == [] then ([], [])
    else if s[0] == '"' then
      if |s| == 1 then ([], [])
      else if s[1] == '"' then Advance(s[2..])
      else
        var v := UpToQuote(s[1..]);
        (if 1 + |v| == |s| then [] else s[2 + |v|..], v)
    else if EndsToken(s[0]) then Advance(s[1..])
    else
      var v := UpToSeparator(s);
      (s[|v|..], v)
  }

  /** Advance from a position, case by case. */
  lemma AdvanceCases(field: string, it: nat)
    requires it <= |field|
    ensures var a := Advance(field[it..]);
      if it == |field| then a == ([], [])
      else if field[it] == '"' then
        if it + 1 == |field| then a == ([], [])
        else if field[it + 1] == '"' then a == Advance(field[it + 2..])
        else
          var v := UpToQuote(field[it + 1..]);
          a == (if it + 1 + |v| == |field| then [] else field[it + 2 + |v|..], v)
      else if EndsToken(field[it]) then a == Advance(field[it + 1..])
      else
        var v := UpToSeparator(field[it..]);
        a == (field[it + |v|..], v)
  {
    var s := field[it..];
    if it < |field| {
      assert s[1..] == field[it + 1..];
      if field[it] == '"' && it + 1 < |field| {
        assert s[2..] == field[it + 2..];
        var v := UpToQuote(s[1..]);
        if it + 1 + |v| < |field| { assert s[2 + |v|..] == field[it + 2 + |v|..]; }
      } else {
        var v := UpToSeparator(s);
        assert s[|v|..] == field[it + |v|..];
      }
    }
  }

  /** The values a walk from begin to end meets. */
  function Values(s: string): seq<string>
    decreases |s|
  {
    var (rest, v) := Advance(s);
    if v == [] then [] else [v] + Values(rest)
  }

  class ListIterator {
    const field: string
    var it: nat
    var value: string

    ghost predicate Valid()
      reads this
    {
      it <= |field|
    }

    /** Everything the iterator still stands on or will reach. */
    ghost function Ahead(): seq<string>
      requires Valid()
      reads this
    {
      if value == [] then [] else [value] + Values(field[it..])
    }

    constructor (field: string, begin: nat)
      requires begin <= |field|
      ensures Valid() && this.field == field
      ensures Ahead() == Values(field[begin..])
      ensures begin <= it && (value == [] ==> it == |field|)
    {
      this.field, it, value := field, begin, [];
      new;
      if it != |field| {
        Increment();
      }
    }

    /** Equal to the iterator past the end. */
    predicate AtEnd()
      requires Valid()
      reads this
    {
      it == |field| && |value| == 0
    }

    method Increment()
      requires Valid()
      modifies this
      ensures Valid()
      ensures (field[it..], value) == Advance(old(field[it..]))
    {
      hide Advance, UpToQuote, UpToSeparator;
      value := [];
      AdvanceCases(field, |field|);
      while it != |field|
        invariant Valid() && value == []
        invariant Advance(field[it..]) == Advance(old(field[it..]))
        decreases |field| - it
      {
        AdvanceCases(field, it);
        if field[it] == '"' {
          it := it + 1;
          if it == |field| {
            assert field[it..] == [];
            return;
          }
          if field[it] != '"' {
            StandOnQuoted();
            return;
          }
          it := it + 1;
        } else if field[it] == ',' {
          it := it + 1;
          continue;
        } else if IsLws(field[it]) {
          it := it + 1;
          continue;
        } else {
          StandOnToken();
          return;
        }
      }
    }

    method StandOnQuoted()
      requires Valid() && it < |field| && field[it] != '"'
      modifies this
      ensures Valid() && value == UpToQuote(old(field[it..]))
      ensures it == if |value| == |old(field[it..])| then |field| else old(it) + |value| + 1
    {
      var start := it;
      while true
        invariant start <= it < |field|
        invariant forall k | start <= k <= it :: field[k] != '"'
        decreases |field| - it
      {
        it := it + 1;
        if it == |field| || field[it] == '"' {
          value := field[start..it];
          UpToQuoteIs(field[start..], it - start);
          if it != |field| {
            it := it + 1;
          }
          return;
        }
      }
    }

    method StandOnToken()
      requires Valid() && it < |field| && !EndsToken(field[it])
      modifies this
      ensures Valid() && value == UpToSeparator(old(field[it..]))
      ensures it == old(it) + |value|
    {
      var start := it;
      while true
        invariant start <= it < |field|
        invariant forall k | start <= k <= it :: !EndsToken(field[k])
        decreases |field| - it
      {
        it := it + 1;
        if it == |field| || field[it] == ',' || IsLws(field[it]) {
          value := field[start..it];
          UpToSeparatorIs(field[start..], it - start);
          return;
        }
      }
    }
  }

  function Lower(c: char): char {
    if 'A' <= c <= 'Z' then (c as int + 32) as char else c
  }

  predicate CiEqual(a: string, b: string) {
    |a| == |b| && forall i | 0 <= i < |a| :: Lower(a[i]) == Lower(b[i])
  }

  const UPPER_CASE := "ABCDEFGHIJKLMNOPQRSTUVWXYZ"
  const LOWER_CASE := "abcdefghijklmnopqrstuvwxyz"

  /** A letter and its other case. */
  ghost predicate CasePair(u: char, l: char) {
    exists k | 0 <= k < 26 :: UPPER_CASE[k] == u && LOWER_CASE[k] == l
  }

  /** The strings differ at most in the case of letters. */
  ghost predicate SameButCase(a: string, b: string) {
    |a| == |b| && forall i | 0 <= i < |a| :: a[i] == b[i] || CasePair(a[i], b[i]) || CasePair(b[i], a[i])
  }

  lemma CasePairIff(u: char, l: char)
    ensures CasePair(u, l) <==> 'A' <= u <= 'Z' && l as int == u as int + 32
  {
    assert forall k | 0 <= k < 26 :: UPPER_CASE[k] as int == 65 + k;
    assert forall k | 0 <= k < 26 :: LOWER_CASE[k] as int == 97 + k;
    if 'A' <= u <= 'Z' && l as int == u as int + 32 {
      assert UPPER_CASE[u as int - 65] == u;
    }
  }

  lemma CiEqualIff(a: string, b: string)
    ensures CiEqual(a, b) <==> SameButCase(a, b)
  {
    hide CasePair;
    forall i | 0 <= i < |a| && i < |b|
      ensures Lower(a[i]) == Lower(b[i]) <==> a[i] == b[i] || CasePair(a[i], b[i]) || CasePair(b[i], a[i])
    {
      CasePairIff(a[i], b[i]);
      CasePairIff(b[i], a[i]);
    }
  }

  method TokenInList(value: string, token: string) returns (found: bool)
    ensures found <==> exists item | item in Values(value) :: SameButCase(item, token)
  {
    hide SameButCase;
    var i := new ListIterator(value, 0);
    ghost var seen: seq<string> := [];
    assert value[0..] == value;
    while !i.AtEnd()
      invariant i.Valid() && i.field == value && (i.value == [] ==> i.AtEnd())
      invariant seen + i.Ahead() == Values(value)
      invariant forall item | item in seen :: !SameButCase(item, token)
      decreases |value| - i.it, |i.value|
    {
      CiEqualIff(i.value, token);
      if CiEqual(i.value, token) {
        return true;
      }
      seen := seen + [i.value];
      i.Increment();
    }
    return false;
  }
}
