// libpq key=value connection strings: the tokeniser and the printer.
module DsnTokens {
  import opened Collections
  import opened Text

  datatype Token = Token(key: string, value: string)

  // The key at the front of s: everything up to a space or an equals sign.
  function KeyAt(s: string): string {
    if s == [] || IsSpace(s[0]) || s[0] == '=' then [] else [s[0]] + KeyAt(s[1..])
  }

  // A value and what follows it.
  type Reading = Option<(string, string)>

  function Ahead(c: char, r: Reading): Reading {
    if r.None? then None else Some(([c] + r.value.0, r.value.1))
  }

  // The rest of a quoted value, up to its closing quote.
  function Quoted(s: string): Reading {
    if s == [] then None
    else if s[0] == '\'' then Some(([], s[1..]))
    else if s[0] != '\\' then Ahead(s[0], Quoted(s[1..]))
    else if |s| == 1 then None
    else Ahead(s[1], Quoted(s[2..]))
  }

  function Unquoted(s: string): Reading {
    if s == [] || IsSpace(s[0]) then Some(([], s))
    else if s[0] != '\\' then Ahead(s[0], Unquoted(s[1..]))
    else if |s| == 1 then None
    else Ahead(s[1], Unquoted(s[2..]))
  }

  function ValueAt(s: string): Reading {
    if s != [] && s[0] == '\'' then Quoted(s[1..]) else Unquoted(s)
  }

  function TokenAt(s: string): Option<(Token, string)> {
    var key := KeyAt(s);
    KeyLength(s);
    var after := SkipSpace(s[|key|..]);
    if after == [] || after[0] != '=' then None
    else match ValueAt(SkipSpace(after[1..]))
         case None => None
         case Some((value, rest)) => Some((Token(key, value), rest))
  }

  function Parse(s: string): Option<seq<Token>>
    decreases |s|
  {
    SkipShorter(s);
    var t := SkipSpace(s);
    if t == [] then Some([])
    else match TokenAt(t)
         case None => None
         case Some((token, rest)) =>
           TokenShorter(t);
           Prepend([token], Parse(rest))
  }

  function Prepend(ts: seq<Token>, more: Option<seq<Token>>): Option<seq<Token>> {
    if more.None? then None else Some(ts + more.value)
  }

  lemma {:induction false} KeyLength(s: string)
    ensures |KeyAt(s)| <= |s|
  {
    if s != [] { KeyLength(s[1..]); }
  }

  lemma {:induction false} QuotedShorter(s: string)
    ensures Quoted(s).Some? ==> |Quoted(s).value.1| < |s|
    decreases |s|
  {
    if s != [] && s[0] != '\'' {
      if s[0] != '\\' { QuotedShorter(s[1..]); } else if |s| > 1 { QuotedShorter(s[2..]); }
    }
  }

  lemma {:induction false} UnquotedShorter(s: string)
    ensures Unquoted(s).Some? ==> |Unquoted(s).value.1| <= |s|
    decreases |s|
  {
    if s != [] && !IsSpace(s[0]) {
      if s[0] != '\\' { UnquotedShorter(s[1..]); } else if |s| > 1 { UnquotedShorter(s[2..]); }
    }
  }

  lemma TokenShorter(s: string)
    ensures TokenAt(s).Some? ==> |TokenAt(s).value.1| < |s|
  {
    var key := KeyAt(s);
    KeyLength(s);
    SkipShorter(s[|key|..]);
    var after := SkipSpace(s[|key|..]);
    if after != [] {
      SkipShorter(after[1..]);
      var v := SkipSpace(after[1..]);
      UnquotedShorter(v);
      if v != [] { QuotedShorter(v[1..]); }
    }
  }

  // ---- The tokeniser ----

  method SkipFrom(s: string, from: nat) returns (i: nat)
    requires from <= |s|
    ensures from <= i <= |s| && s[i..] == SkipSpace(s[from..])
  {
    i := from;
    while i < |s| && IsSpace(s[i])
      invariant from <= i <= |s| && SkipSpace(s[i..]) == SkipSpace(s[from..])
    {
      assert s[i..][1..] == s[i + 1..];
      i := i + 1;
    }
  }

  method KeyFrom(s: string, from: nat) returns (i: nat)
    requires from <= |s|
    ensures from <= i <= |s| && s[from..i] == KeyAt(s[from..])
  {
    i := from;
    while i < |s| && !IsSpace(s[i]) && s[i] != '='
      invariant from <= i <= |s| && s[from..i] + KeyAt(s[i..]) == KeyAt(s[from..])
    {
      assert s[i..][1..] == s[i + 1..];
      assert s[from..i + 1] == s[from..i] + [s[i]];
      i := i + 1;
    }
  }

  // value in front of what r reads.
  function After(value: string, r: Reading): Reading {
    if r.None? then None else Some((value + r.value.0, r.value.1))
  }

  lemma AfterNothing(r: Reading)
    ensures After([], r) == r
  {
    if r.Some? {
      assert [] + r.value.0 == r.value.0;
    }
  }

  lemma AfterAhead(value: string, c: char, r: Reading)
    ensures After(value, Ahead(c, r)) == After(value + [c], r)
  {
    if r.Some? {
      assert value + ([c] + r.value.0) == (value + [c]) + r.value.0;
    }
  }

  method QuotedFrom(s: string, from: nat) returns (ok: bool, value: string, i: nat)
    requires from <= |s|
    ensures i <= |s| && Quoted(s[from..]) == if ok then Some((value, s[i..])) else None
  {
    value, i := [], from;
    AfterNothing(Quoted(s[from..]));
    while true
      invariant from <= i <= |s| && Quoted(s[from..]) == After(value, Quoted(s[i..]))
      decreases |s| - i
    {
      if i >= |s| {
        return false, value, i;
      }
      var c, rest := s[i], s[i..];
      i := i + 1;
      assert rest[1..] == s[i..];
      if c == '\'' {
        assert value + [] == value;
        return true, value, i;
      }
      if c == '\\' {
        if i >= |s| {
          return false, value, i;
        }
        c := s[i];
        i := i + 1;
        assert rest[2..] == s[i..];
      }
      AfterAhead(value, c, Quoted(s[i..]));
      value := value + [c];
    }
  }

  method UnquotedFrom(s: string, from: nat) returns (ok: bool, value: string, i: nat)
    requires from <= |s|
    ensures i <= |s| && Unquoted(s[from..]) == if ok then Some((value, s[i..])) else None
  {
    value, i := [], from;
    AfterNothing(Unquoted(s[from..]));
    while i < |s| && !IsSpace(s[i])
      invariant from <= i <= |s| && Unquoted(s[from..]) == After(value, Unquoted(s[i..]))
    {
      var c, rest := s[i], s[i..];
      i := i + 1;
      assert rest[1..] == s[i..];
      if c == '\\' {
        if i >= |s| {
          return false, value, i;
        }
        c := s[i];
        i := i + 1;
        assert rest[2..] == s[i..];
      }
      AfterAhead(value, c, Unquoted(s[i..]));
      value := value + [c];
    }
    assert value + [] == value;
    ok := true;
  }

  method TokenFrom(s: string, from: nat) returns (token: Option<Token>, i: nat)
    requires from <= |s|
    ensures i <= |s|
    ensures TokenAt(s[from..]) == if token.Some? then Some((token.value, s[i..])) else None
  {
    KeyLength(s[from..]);
    i := KeyFrom(s, from);
    var key := s[from..i];
    assert s[from..][|key|..] == s[i..];
    i := SkipFrom(s, i);
    if i >= |s| || s[i] != '=' {
      return None, i;
    }
    assert s[i..][1..] == s[i + 1..];
    i := SkipFrom(s, i + 1);
    var ok, value;
    ok, value, i := ValueFrom(s, i);
    token := if ok then Some(Token(key, value)) else None;
  }

  method ValueFrom(s: string, from: nat) returns (ok: bool, value: string, i: nat)
    requires from <= |s|
    ensures i <= |s| && ValueAt(s[from..]) == if ok then Some((value, s[i..])) else None
  {
    if from < |s| && s[from] == '\'' {
      assert s[from..][1..] == s[from + 1..];
      ok, value, i := QuotedFrom(s, from + 1);
    } else {
      ok, value, i := UnquotedFrom(s, from);
    }
  }

  method ParseKV(dsn: string) returns (tokens: Option<seq<Token>>)
    ensures tokens == Parse(dsn)
  {
    var ts, i: nat := [], 0;
    assert dsn[0..] == dsn && Prepend([], Parse(dsn)) == Parse(dsn) by { PrependNothing(Parse(dsn)); }
    while i < |dsn|
      invariant i <= |dsn| && Parse(dsn) == Prepend(ts, Parse(dsn[i..]))
      decreases |dsn| - i
    {
      ghost var before := i;
      i := SkipFrom(dsn, i);
      if i >= |dsn| {
        break;
      }
      TokenShorter(dsn[i..]);
      var token;
      token, i := TokenFrom(dsn, i);
      if token.None? {
        return None;
      }
      PrependTwice(ts, token.value, Parse(dsn[i..]));
      ts := ts + [token.value];
    }
    assert ts + [] == ts;
    return Some(ts);
  }

  lemma PrependNothing(more: Option<seq<Token>>)
    ensures Prepend([], more) == more
  {
    if more.Some? {
      assert [] + more.value == more.value;
    }
  }

  lemma PrependTwice(ts: seq<Token>, t: Token, more: Option<seq<Token>>)
    ensures Prepend(ts, Prepend([t], more)) == Prepend(ts + [t], more)
  {
    if more.Some? {
      assert ts + ([t] + more.value) == (ts + [t]) + more.value;
    }
  }

  // ---- The printer ----

  predicate Special(c: char) {
    IsSpace(c) || c == '\'' || c == '\\'
  }

  function QuoteKV(v: string): string {
    if v == "" then "''"
    else if forall c :: c in v ==> !Special(c) then v
    else "'" + Replace(Replace(v, '\\', "\\\\"), '\'', "\\'") + "'"
  }

  function Pair(t: Token): string {
    t.key + ("=" + QuoteKV(t.value))
  }

  function Build(ts: seq<Token>): string {
    if ts == [] then ""
    else if |ts| == 1 then Pair(ts[0])
    else Pair(ts[0]) + (" " + Build(ts[1..]))
  }

  predicate CleanKey(key: string) {
    forall c :: c in key ==> !IsSpace(c) && c != '='
  }

  predicate CleanKeys(ts: seq<Token>) {
    forall t :: t in ts ==> CleanKey(t.key)
  }

  function Escaped(c: char): string {
    if c == '\\' then "\\\\" else if c == '\'' then "\\'" else [c]
  }

  lemma EscapesEach(v: string)
    ensures Replace(Replace(v, '\\', "\\\\"), '\'', "\\'") == Mapped(Escaped, v)
  {
    var f := (x: char) => if x == '\\' then "\\\\" else [x];
    ReplaceIsMapped(v, '\\', "\\\\");
    ReplaceMapped(f, v, '\'', "\\'");
    forall x ensures Replace(f(x), '\'', "\\'") == Escaped(x) {
      ReplaceChar(x, '\'', "\\'");
      ReplaceChar('\\', '\'', "\\'");
      assert "\\\\" == "\\" + "\\";
      ReplaceConcat("\\", "\\", '\'', "\\'");
    }
    MappedSame(x => Replace(f(x), '\'', "\\'"), Escaped, v);
  }

  // One escaped character in front of a quoted value.
  lemma QuotedChar(c: char, body: string)
    ensures Quoted(Escaped(c) + body) == Ahead(c, Quoted(body))
  {
    var whole := Escaped(c) + body;
    if Escaped(c) == [c] {
      assert whole[0] == c && whole[1..] == body;
    } else {
      assert whole[0] == '\\' && whole[1] == c && whole[2..] == body;
    }
  }

  lemma {:induction false} QuotedReads(v: string, rest: string)
    ensures Quoted(Mapped(Escaped, v) + ("'" + rest)) == Some((v, rest))
  {
    var close := "'" + rest;
    if v == [] {
      assert [] + close == close && close[1..] == rest;
    } else {
      var body := Mapped(Escaped, v[1..]);
      QuotedReads(v[1..], rest);
      QuotedChar(v[0], body + close);
      Associates(Escaped(v[0]), body, close);
      assert v == [v[0]] + v[1..];
    }
  }

  // What may follow a value: nothing, or a space.
  predicate Ends(rest: string) {
    rest == [] || IsSpace(rest[0])
  }

  lemma {:induction false} PlainReads(v: string, rest: string)
    requires Ends(rest) && forall c :: c in v ==> !Special(c)
    ensures Unquoted(v + rest) == Some((v, rest))
  {
    if v == [] {
      assert v + rest == rest;
    } else {
      assert v[0] in v && forall c :: c in v[1..] ==> c in v;
      PlainReads(v[1..], rest);
      assert (v + rest)[1..] == v[1..] + rest;
      assert v == [v[0]] + v[1..];
    }
  }

  lemma QuotedText(body: string, rest: string)
    ensures "'" + body + "'" + rest == ['\''] + (body + ("'" + rest))
  {
  }

  lemma QuotedValueReads(body: string, v: string, rest: string)
    requires body == Mapped(Escaped, v)
    ensures ValueAt("'" + body + "'" + rest) == Some((v, rest))
    ensures SkipSpace("'" + body + "'" + rest) == "'" + body + "'" + rest
  {
    var text := "'" + body + "'" + rest;
    QuotedText(body, rest);
    var after := body + ("'" + rest);
    assert text[0] == '\'' && text[1..] == after;
    QuotedReads(v, rest);
  }

  // Every value, quotes, backslashes and the empty one included, is read back.
  lemma ValueReads(v: string, rest: string)
    requires Ends(rest)
    ensures ValueAt(QuoteKV(v) + rest) == Some((v, rest))
    ensures SkipSpace(QuoteKV(v) + rest) == QuoteKV(v) + rest
  {
    if v == "" {
      QuotedValueReads([], v, rest);
      assert "'" + [] + "'" == "''";
    } else if forall c :: c in v ==> !Special(c) {
      PlainReads(v, rest);
      assert v[0] in v && (v + rest)[0] == v[0];
    } else {
      EscapesEach(v);
      QuotedValueReads(Mapped(Escaped, v), v, rest);
    }
  }

  lemma {:induction false} KeyReads(key: string, rest: string)
    requires CleanKey(key) && rest != [] && rest[0] == '='
    ensures KeyAt(key + rest) == key
  {
    if key == [] {
      assert key + rest == rest;
    } else {
      assert key[0] in key && forall c :: c in key[1..] ==> c in key;
      KeyReads(key[1..], rest);
      assert (key + rest)[1..] == key[1..] + rest;
      assert key == [key[0]] + key[1..];
    }
  }

  lemma PairReads(t: Token, rest: string)
    requires CleanKey(t.key) && Ends(rest)
    ensures TokenAt(Pair(t) + rest) == Some((t, rest))
    ensures SkipSpace(Pair(t) + rest) == Pair(t) + rest
  {
    var value := QuoteKV(t.value) + rest;
    var text, after := Pair(t) + rest, ['='] + value;
    assert text == t.key + after;
    KeyReads(t.key, after);
    assert text[|t.key|..] == after && after[1..] == value;
    ValueReads(t.value, rest);
    if t.key != [] { assert t.key[0] in t.key; }
  }

  lemma TokenParses(t: Token, rest: string)
    requires CleanKey(t.key) && Ends(rest)
    ensures Parse(Pair(t) + rest) == Prepend([t], Parse(rest))
  {
    PairReads(t, rest);
    TokenShorter(Pair(t) + rest);
    assert Pair(t) + rest != [];
  }

  // Printing then tokenising gives the tokens back.
  lemma {:induction false} BuildParses(ts: seq<Token>)
    requires CleanKeys(ts)
    ensures Parse(Build(ts)) == Some(ts)
  {
    if ts != [] {
      var more := ts[1..];
      assert ts == [ts[0]] + more;
      assert ts[0] in ts && forall t :: t in more ==> t in ts;
      BuildParses(more);
      if more == [] {
        TokenParses(ts[0], []);
        assert Pair(ts[0]) + [] == Build(ts);
      } else {
        TokenParses(ts[0], " " + Build(more));
        SpaceSkipped(Build(more));
      }
    }
  }

  lemma SpaceSkipped(s: string)
    ensures Parse(" " + s) == Parse(s)
  {
    assert (" " + s)[1..] == s && SPACES[0] == ' ';
    assert SkipSpace(" " + s) == SkipSpace(s);
  }

  lemma {:induction false} KeyIsClean(s: string)
    ensures CleanKey(KeyAt(s))
  {
    if s != [] { KeyIsClean(s[1..]); }
  }

  lemma {:induction false} ParsedKeysAreClean(s: string)
    ensures Parse(s).Some? ==> CleanKeys(Parse(s).value)
    decreases |s|
  {
    SkipShorter(s);
    var t := SkipSpace(s);
    if t != [] && TokenAt(t).Some? {
      TokenShorter(t);
      ParsedKeysAreClean(TokenAt(t).value.1);
      KeyIsClean(t);
    }
  }

  // The round trip holds exactly for keys holding no space and no equals sign.
  lemma RoundTrip(ts: seq<Token>)
    ensures Parse(Build(ts)) == Some(ts) <==> CleanKeys(ts)
  {
    ParsedKeysAreClean(Build(ts));
    if CleanKeys(ts) {
      BuildParses(ts);
    }
  }

  // Whatever parses is rewritten without changing what it says.
  lemma RewriteParses(s: string)
    ensures Parse(s).Some? ==> Parse(Build(Parse(s).value)) == Parse(s)
  {
    ParsedKeysAreClean(s);
    if Parse(s).Some? {
      BuildParses(Parse(s).value);
    }
  }
}
