// Literal search: a LIKE pattern that matches exactly the texts containing the
// search text, carried through a SQL string literal.
module LikeLiterals {
  import opened Collections
  import opened Text

  // ---- LIKE with ESCAPE '$' ----

  const LIKE_ESCAPE := '$'

  predicate Wild(c: char) {
    c == LIKE_ESCAPE || c == '%' || c == '_'
  }

  // Section 8.5 of ISO/IEC 9075:1992, with LIKE_ESCAPE as the escape character.
  predicate Like(p: string, s: string)
    decreases |p|, |s|
  {
    if p == [] then s == []
    else if p[0] == '%' then Like(p[1..], s) || (s != [] && Like(p, s[1..]))
    else if p[0] == LIKE_ESCAPE then |p| > 1 && s != [] && s[0] == p[1] && Like(p[2..], s[1..])
    else s != [] && (p[0] == '_' || s[0] == p[0]) && Like(p[1..], s[1..])
  }

  // The three replacements in the order they run.
  function EscapeLike(v: string): string {
    Replace(Replace(Replace(v, '$', "$$"), '%', "$%"), '_', "$_")
  }

  function EscapedChar(c: char): string {
    if Wild(c) then [LIKE_ESCAPE, c] else [c]
  }

  lemma EscapesOnce(x: char)
    ensures Replace(Replace(if x == '$' then "$$" else [x], '%', "$%"), '_', "$_") == EscapedChar(x)
  {
    if x == '$' {
      ReplaceChar('$', '%', "$%");
      ReplaceConcat("$", "$", '%', "$%");
      ReplaceChar('$', '_', "$_");
      ReplaceConcat("$", "$", '_', "$_");
      assert "$" + "$" == "$$";
    } else {
      ReplaceChar(x, '%', "$%");
      if x == '%' {
        ReplaceChar('$', '_', "$_");
        ReplaceChar('%', '_', "$_");
        ReplaceConcat("$", "%", '_', "$_");
        assert "$" + "%" == "$%";
      } else {
        ReplaceChar(x, '_', "$_");
      }
    }
  }

  // Escaping the escape character first makes the sequence escape each character once.
  lemma EscapesEachChar(v: string)
    ensures EscapeLike(v) == Mapped(EscapedChar, v)
  {
    var f := (x: char) => if x == '$' then "$$" else [x];
    var g := (x: char) => Replace(f(x), '%', "$%");
    var h := (x: char) => Replace(g(x), '_', "$_");
    ReplaceIsMapped(v, '$', "$$");
    ReplaceMapped(f, v, '%', "$%");
    ReplaceMapped(g, v, '_', "$_");
    forall x ensures h(x) == EscapedChar(x) {
      EscapesOnce(x);
    }
    MappedSame(h, EscapedChar, v);
  }

  lemma LikeChar(c: char, p: string, s: string)
    ensures Like(EscapedChar(c) + p, s) <==> s != [] && s[0] == c && Like(p, s[1..])
  {
    var whole := EscapedChar(c) + p;
    if Wild(c) {
      assert whole[0] == LIKE_ESCAPE && whole[1] == c && whole[2..] == p;
    } else {
      assert whole[0] == c && whole[1..] == p;
    }
  }

  lemma {:induction false} LikeLiteral(q: string, p: string, s: string)
    ensures Like(Mapped(EscapedChar, q) + p, s) <==> q <= s && Like(p, s[|q|..])
  {
    if q == [] {
      assert [] + p == p && s[0..] == s;
    } else {
      var rest := Mapped(EscapedChar, q[1..]);
      Associates(EscapedChar(q[0]), rest, p);
      LikeChar(q[0], rest + p, s);
      if s != [] {
        LikeLiteral(q[1..], p, s[1..]);
        PrefixSteps(q, s);
        if q <= s { assert s[|q|..] == s[1..][|q| - 1..]; }
      }
    }
  }

  lemma {:induction false} LikeAnything(p: string, s: string)
    requires p != [] && p[0] == '%'
    ensures Like(p, s) <==> exists i :: 0 <= i <= |s| && Like(p[1..], s[i..])
  {
    assert s[0..] == s;
    if s != [] {
      LikeAnything(p, s[1..]);
      if i :| 0 <= i <= |s| && Like(p[1..], s[i..]) {
        if i > 0 {
          assert s[1..][i - 1..] == s[i..];
        }
      }
      if Like(p, s[1..]) {
        var i :| 0 <= i <= |s[1..]| && Like(p[1..], s[1..][i..]);
        assert s[1..][i..] == s[i + 1..];
      }
    }
  }

  predicate Contains(s: string, q: string) {
    exists i :: 0 <= i <= |s| && q <= s[i..]
  }

  // The pattern matches a text exactly when the search text is a contiguous
  // part of it, wildcards and escape characters included.
  lemma PatternIsLiteral(q: string, s: string)
    ensures Like("%" + EscapeLike(q) + "%", s) <==> Contains(s, q)
  {
    EscapesEachChar(q);
    var p, body := "%" + EscapeLike(q) + "%", Mapped(EscapedChar, q) + "%";
    assert p[0] == '%' && p[1..] == body;
    LikeAnything(p, s);
    forall i | 0 <= i <= |s| ensures Like(body, s[i..]) <==> q <= s[i..] {
      LikeLiteral(q, "%", s[i..]);
      if q <= s[i..] { LikeAnything("%", s[i..][|q|..]); LikeTail(s[i..][|q|..]); }
    }
  }

  lemma LikeTail(s: string)
    ensures Like("%", s)
  {
    LikeAnything("%", s);
    assert s[|s|..] == [] && "%"[1..] == [];
    assert Like("%"[1..], s[|s|..]);
  }

  // ---- Matching without case ----

  function Lowered(lower: char -> char, s: string): string {
    seq(|s|, i requires 0 <= i < |s| => lower(s[i]))
  }

  // Lowering neither moves nor makes a wildcard.
  ghost predicate KeepsWildcards(lower: char -> char) {
    forall c :: (Wild(c) ==> lower(c) == c) && (Wild(lower(c)) ==> Wild(c))
  }

  lemma {:induction false} LoweredEscapes(lower: char -> char, q: string)
    requires KeepsWildcards(lower)
    ensures Lowered(lower, Mapped(EscapedChar, q)) == Mapped(EscapedChar, Lowered(lower, q))
  {
    if q != [] {
      var rest := Mapped(EscapedChar, q[1..]);
      LoweredEscapes(lower, q[1..]);
      assert Lowered(lower, q)[1..] == Lowered(lower, q[1..]);
      assert Lowered(lower, EscapedChar(q[0]) + rest) == Lowered(lower, EscapedChar(q[0])) + Lowered(lower, rest);
      assert Lowered(lower, EscapedChar(q[0])) == EscapedChar(lower(q[0]));
    }
  }

  // With both sides lowered the match is the search without case.
  lemma LoweredPatternIsLiteral(lower: char -> char, q: string, s: string)
    requires KeepsWildcards(lower)
    ensures Like(Lowered(lower, "%" + EscapeLike(q) + "%"), Lowered(lower, s)) <==>
              Contains(Lowered(lower, s), Lowered(lower, q))
  {
    EscapesEachChar(q);
    EscapesEachChar(Lowered(lower, q));
    LoweredEscapes(lower, q);
    assert Wild('%');
    assert Lowered(lower, "%" + EscapeLike(q) + "%") == "%" + EscapeLike(Lowered(lower, q)) + "%";
    PatternIsLiteral(Lowered(lower, q), Lowered(lower, s));
  }

  // ---- String literals ----

  // What a backslash and c stand for in a literal that reads backslashes.
  function Decoded(c: char): char {
    match c
    case '0' => '\0'
    case 'b' => '\U{08}'
    case 'n' => '\n'
    case 'r' => '\r'
    case 't' => '\t'
    case 'Z' => '\U{1A}'
    case _ => c
  }

  // The rest of a literal after its opening quote: the text it stands for and
  // what follows it, or None when it never ends.
  function Literal(s: string, backslash: bool): Option<(string, string)> {
    if s == [] then None
    else if s[0] == '\'' then
      if |s| > 1 && s[1] == '\'' then Read('\'', Literal(s[2..], backslash)) else Some(([], s[1..]))
    else if s[0] == '\\' && backslash then
      if |s| == 1 then None else Read(Decoded(s[1]), Literal(s[2..], backslash))
    else Read(s[0], Literal(s[1..], backslash))
  }

  function Read(c: char, r: Option<(string, string)>): Option<(string, string)> {
    if r.None? then None else Some(([c] + r.value.0, r.value.1))
  }

  // MySQL doubles backslashes, then quotes; PostgreSQL doubles quotes alone.
  function MySQLBody(v: string): string {
    Replace(Replace(v, '\\', "\\\\"), '\'', "''")
  }

  function MySQLLiteral(v: string): string {
    "'" + MySQLBody(v) + "'"
  }

  function PostgreSQLLiteral(v: string): string {
    "'" + Replace(v, '\'', "''") + "'"
  }

  function Doubled(c: char, backslash: bool): string {
    if c == '\'' || (c == '\\' && backslash) then [c, c] else [c]
  }

  lemma MySQLDoublesEach(v: string)
    ensures MySQLBody(v) == Mapped(c => Doubled(c, true), v)
  {
    var f := (x: char) => if x == '\\' then "\\\\" else [x];
    var g := (x: char) => Replace(f(x), '\'', "''");
    ReplaceIsMapped(v, '\\', "\\\\");
    ReplaceMapped(f, v, '\'', "''");
    forall x ensures g(x) == Doubled(x, true) {
      ReplaceChar(x, '\'', "''");
      ReplaceChar('\\', '\'', "''");
      ReplaceConcat("\\", "\\", '\'', "''");
      assert "\\" + "\\" == "\\\\";
    }
    MappedSame(g, c => Doubled(c, true), v);
  }

  lemma PostgreSQLDoublesQuotes(v: string)
    ensures Replace(v, '\'', "''") == Mapped(c => Doubled(c, false), v)
  {
    ReplaceIsMapped(v, '\'', "''");
    MappedSame(x => if x == '\'' then "''" else [x], c => Doubled(c, false), v);
  }

  lemma LiteralChar(c: char, backslash: bool, rest: string)
    ensures Literal(Doubled(c, backslash) + rest, backslash) == Read(c, Literal(rest, backslash))
        || (c == '\\' && !backslash)
    ensures c == '\\' && !backslash ==> Literal([c] + rest, backslash) == Read(c, Literal(rest, backslash))
  {
    var whole := Doubled(c, backslash) + rest;
    if |Doubled(c, backslash)| == 2 {
      assert whole[0] == c && whole[1] == c && whole[2..] == rest;
    } else {
      assert whole[0] == c && whole[1..] == rest;
    }
  }

  // What may follow a literal without running into it.
  predicate Closes(rest: string) {
    rest == [] || rest[0] != '\''
  }

  lemma {:induction false} DoubledReads(v: string, backslash: bool, rest: string)
    requires Closes(rest)
    ensures Literal(Mapped(c => Doubled(c, backslash), v) + ("'" + rest), backslash) == Some((v, rest))
  {
    var f := (c: char) => Doubled(c, backslash);
    var close := "'" + rest;
    if v == [] {
      assert [] + close == close && close[1..] == rest;
    } else {
      var body := Mapped(f, v[1..]);
      DoubledReads(v[1..], backslash, rest);
      LiteralChar(v[0], backslash, body + close);
      assert Mapped(f, v) == f(v[0]) + body;
      Associates(f(v[0]), body, close);
      assert v == [v[0]] + v[1..];
    }
  }

  lemma LiteralOpens(body: string, rest: string)
    ensures ("'" + body + "'" + rest)[1..] == body + ("'" + rest)
  {
  }

  // A literal is read back as the text it was made from and ends where it ends,
  // whatever the text: MySQL's with backslash escapes on, PostgreSQL's with
  // standard strings.
  lemma LiteralsReadBack(v: string, rest: string)
    requires Closes(rest)
    ensures Literal((MySQLLiteral(v) + rest)[1..], true) == Some((v, rest))
    ensures Literal((PostgreSQLLiteral(v) + rest)[1..], false) == Some((v, rest))
  {
    MySQLDoublesEach(v);
    PostgreSQLDoublesQuotes(v);
    DoubledReads(v, true, rest);
    DoubledReads(v, false, rest);
    LiteralOpens(MySQLBody(v), rest);
    LiteralOpens(Replace(v, '\'', "''"), rest);
  }

  lemma {:induction false} ReplaceLength(v: string, c: char, with: string)
    requires |with| == 2
    ensures |Replace(v, c, with)| >= |v|
    ensures |Replace(v, c, with)| == |v| <==> c !in v
    ensures c !in v ==> Replace(v, c, with) == v
  {
    if v != [] {
      ReplaceLength(v[1..], c, with);
      assert v == [v[0]] + v[1..];
    }
  }

  // With backslash escapes off, MySQL's literal still ends where it ends, but
  // stands for the text with its backslashes doubled: the same text exactly when
  // it holds none.
  lemma MySQLWithoutEscapes(v: string, rest: string)
    requires Closes(rest)
    ensures Literal((MySQLLiteral(v) + rest)[1..], false) == Some((Replace(v, '\\', "\\\\"), rest))
    ensures Literal((MySQLLiteral(v) + rest)[1..], false) == Some((v, rest)) <==> '\\' !in v
  {
    var w := Replace(v, '\\', "\\\\");
    PostgreSQLDoublesQuotes(w);
    DoubledReads(w, false, rest);
    LiteralOpens(MySQLBody(v), rest);
    ReplaceLength(v, '\\', "\\\\");
  }

  function Quotes(s: string): nat {
    if s == [] then 0 else (if s[0] == '\'' then 1 else 0) + Quotes(s[1..])
  }

  // Each character read costs at least one, and each quote two.
  lemma {:induction false} LiteralCosts(s: string)
    requires Literal(s, true).Some?
    ensures var (u, rest) := Literal(s, true).value; |u| + Quotes(u) + 1 + |rest| <= |s|
    decreases |s|
  {
    if s[0] == '\'' {
      if |s| > 1 && s[1] == '\'' {
        LiteralCosts(s[2..]);
        QuotesFront('\'', Literal(s[2..], true).value.0);
      }
    } else if s[0] == '\\' {
      LiteralCosts(s[2..]);
      QuotesFront(Decoded(s[1]), Literal(s[2..], true).value.0);
    } else {
      LiteralCosts(s[1..]);
      QuotesFront(s[0], Literal(s[1..], true).value.0);
    }
  }

  lemma QuotesFront(c: char, s: string)
    ensures Quotes([c] + s) == (if c == '\'' then 1 else 0) + Quotes(s)
  {
    assert ([c] + s)[1..] == s;
  }

  lemma {:induction false} DoubledLength(v: string)
    ensures |Mapped(c => Doubled(c, false), v)| == |v| + Quotes(v)
  {
    if v != [] {
      DoubledLength(v[1..]);
    }
  }

  // A text holding a backslash is not what its quotes-only literal stands for
  // where backslashes are read.
  lemma {:induction false} BackslashIsLost(v: string, rest: string)
    requires '\\' in v
    ensures Literal(Mapped(c => Doubled(c, false), v) + ("'" + rest), true) != Some((v, rest))
  {
    var f := (c: char) => Doubled(c, false);
    var close, body := "'" + rest, Mapped(f, v[1..]);
    assert Mapped(f, v) == f(v[0]) + body;
    Associates(f(v[0]), body, close);
    var s := f(v[0]) + (body + close);
    assert v == [v[0]] + v[1..];
    if Literal(s, true) == Some((v, rest)) {
      if v[0] == '\\' {
        assert s[0] == '\\' && s[1..] == body + close && |s| > 1;
        LiteralCosts(s[2..]);
        QuotesFront(v[0], v[1..]);
        DoubledLength(v[1..]);
        SameTail(Decoded(s[1]), Literal(s[2..], true), v[0], v[1..], rest);
        assert false;
      } else {
        LiteralChar(v[0], false, body + close);
        BackslashIsLost(v[1..], rest);
        QuoteOrPlain(v[0], body + close);
        SameTail(v[0], Literal(body + close, true), v[0], v[1..], rest);
        assert false;
      }
    }
  }

  lemma QuoteOrPlain(c: char, rest: string)
    requires c != '\\'
    ensures Literal(Doubled(c, false) + rest, true) == Read(c, Literal(rest, true))
  {
    var whole := Doubled(c, false) + rest;
    if c == '\'' {
      assert whole[0] == c && whole[1] == c && whole[2..] == rest;
    } else {
      assert whole[0] == c && whole[1..] == rest;
    }
  }

  lemma SameTail(c: char, r: Option<(string, string)>, d: char, v: string, rest: string)
    requires Read(c, r) == Some(([d] + v, rest))
    ensures r == Some((v, rest))
  {
    assert ([c] + r.value.0)[1..] == r.value.0 && ([d] + v)[1..] == v;
  }

  // With standard strings off, PostgreSQL's literal is read back exactly when
  // the text holds no backslash.
  lemma PostgreSQLWithEscapes(v: string, rest: string)
    requires Closes(rest)
    ensures Literal((PostgreSQLLiteral(v) + rest)[1..], true) == Some((v, rest)) <==> '\\' !in v
  {
    PostgreSQLDoublesQuotes(v);
    LiteralOpens(Replace(v, '\'', "''"), rest);
    if '\\' in v {
      BackslashIsLost(v, rest);
    } else {
      SameDoubling(v);
      DoubledReads(v, true, rest);
    }
  }

  lemma {:induction false} SameDoubling(v: string)
    requires '\\' !in v
    ensures Mapped(c => Doubled(c, false), v) == Mapped(c => Doubled(c, true), v)
  {
    if v != [] {
      assert v[0] in v && forall c :: c in v[1..] ==> c in v;
      SameDoubling(v[1..]);
    }
  }

  // Search through a literal: what the server decodes and matches, without case
  // as both dialects do or with it, is the text that was typed.
  lemma SearchThroughLiteral(lower: char -> char, q: string, s: string, rest: string)
    requires Closes(rest) && KeepsWildcards(lower)
    ensures var pattern := "%" + EscapeLike(q) + "%";
            var mysql := Literal((MySQLLiteral(pattern) + rest)[1..], true);
            var pg := Literal((PostgreSQLLiteral(pattern) + rest)[1..], false);
            && mysql.Some? && pg.Some? && mysql.value.1 == rest && pg.value.1 == rest
            && (Like(Lowered(lower, mysql.value.0), Lowered(lower, s)) <==>
                Contains(Lowered(lower, s), Lowered(lower, q)))
            && (Like(Lowered(lower, pg.value.0), Lowered(lower, s)) <==> Contains(Lowered(lower, s), Lowered(lower, q)))
  {
    LiteralsReadBack("%" + EscapeLike(q) + "%", rest);
    LoweredPatternIsLiteral(lower, q, s);
  }

  // ---- The literal decoder ----

  // The text of a literal's body, between its quotes.
  function Unescaped(body: string, quote: char): string {
    if body == [] then []
    else if body[0] == quote && |body| > 1 && body[1] == quote then [quote] + Unescaped(body[2..], quote)
    else if body[0] == '\\' && |body| > 1 then [Decoded(body[1])] + Unescaped(body[2..], quote)
    else [body[0]] + Unescaped(body[1..], quote)
  }

  method UnescapeText(body: string, quote: char) returns (out: string)
    ensures out == Unescaped(body, quote)
  {
    var idx: nat := 0;
    out := [];
    assert body[0..] == body;
    while idx < |body|
      invariant idx <= |body| && out + Unescaped(body[idx..], quote) == Unescaped(body, quote)
      decreases |body| - idx
    {
      ghost var rest, was := body[idx..], out;
      var c := body[idx];
      if body[idx] == quote && idx + 1 < |body| && body[idx + 1] == quote {
        idx := idx + 1;
        c := body[idx];
        assert rest[2..] == body[idx + 1..];
      } else if body[idx] == '\\' && idx + 1 < |body| {
        idx := idx + 1;
        c := Decoded(body[idx]);
        assert rest[2..] == body[idx + 1..];
      } else {
        assert rest[1..] == body[idx + 1..];
      }
      out := out + [c];
      idx := idx + 1;
      Associates(was, [c], Unescaped(body[idx..], quote));
    }
    assert out + [] == out;
  }

  lemma UnescapedChar(c: char, rest: string)
    ensures Unescaped(Doubled(c, true) + rest, '\'') == [c] + Unescaped(rest, '\'')
  {
    var whole := Doubled(c, true) + rest;
    if |Doubled(c, true)| == 2 {
      assert whole[0] == c && whole[1] == c && whole[2..] == rest;
    } else {
      assert whole[0] == c && whole[1..] == rest;
    }
  }

  lemma {:induction false} UnescapedDoubled(v: string)
    ensures Unescaped(Mapped(c => Doubled(c, true), v), '\'') == v
  {
    if v != [] {
      UnescapedDoubled(v[1..]);
      UnescapedChar(v[0], Mapped(c => Doubled(c, true), v[1..]));
      assert v == [v[0]] + v[1..];
    }
  }

  // The decoder undoes the printer, for every text.
  lemma DecoderUndoesPrinter(v: string)
    ensures Unescaped(MySQLBody(v), '\'') == v
  {
    MySQLDoublesEach(v);
    UnescapedDoubled(v);
  }

  // ---- What is printed and decoded, character by character ----

  // The escape character goes before itself and the two wildcards; MySQL doubles
  // quotes and backslashes, PostgreSQL quotes.
  lemma PrintsExactly(v: string)
    ensures EscapeLike(v) == Mapped(c => if c == '$' || c == '%' || c == '_' then ['$', c] else [c], v)
    ensures MySQLLiteral(v) == "'" + Mapped(c => if c == '\'' || c == '\\' then [c, c] else [c], v) + "'"
    ensures PostgreSQLLiteral(v) == "'" + Mapped(c => if c == '\'' then [c, c] else [c], v) + "'"
  {
    EscapesEachChar(v);
    MySQLDoublesEach(v);
    PostgreSQLDoublesQuotes(v);
    MappedSame(EscapedChar, c => if c == '$' || c == '%' || c == '_' then ['$', c] else [c], v);
    MappedSame(c => Doubled(c, true), c => if c == '\'' || c == '\\' then [c, c] else [c], v);
    MappedSame(c => Doubled(c, false), c => if c == '\'' then [c, c] else [c], v);
  }

  // One character of a body: as itself, as a doubled quote, or after a backslash.
  datatype Mark = Itself(c: char) | Twice | Slash(c: char)

  function MarkText(ms: seq<Mark>, quote: char): string {
    if ms == [] then ""
    else (match ms[0] case Itself(c) => [c] case Twice => [quote, quote] case Slash(c) => ['\\', c])
         + MarkText(ms[1..], quote)
  }

  // The six letters that stand for something else after a backslash.
  const LETTERS := map['0' := '\0', 'b' := '\U{08}', 'n' := '\n', 'r' := '\r', 't' := '\t', 'Z' := '\U{1A}']

  function MarkMeaning(m: Mark, quote: char): char {
    match m
    case Itself(c) => c
    case Twice => quote
    case Slash(c) => if c in LETTERS then LETTERS[c] else c
  }

  // A backslash stands for itself at the end only, and a quote where no other follows.
  predicate LegibleMarks(ms: seq<Mark>, quote: char) {
    ms != [] ==>
      && LegibleMarks(ms[1..], quote)
      && (ms[0].Itself? ==>
            var rest := MarkText(ms[1..], quote);
            rest == "" || (ms[0].c != '\\' && !(ms[0].c == quote && rest[0] == quote)))
      && (ms[0].Slash? && quote == '\\' ==> ms[0].c != quote)
  }

  lemma LettersDecode(c: char)
    ensures Decoded(c) == if c in LETTERS then LETTERS[c] else c
  {
  }

  lemma {:induction false} MarksDecode(ms: seq<Mark>, quote: char)
    requires LegibleMarks(ms, quote)
    ensures Unescaped(MarkText(ms, quote), quote) == seq(|ms|, i requires 0 <= i < |ms| => MarkMeaning(ms[i], quote))
  {
    if ms != [] {
      var more := ms[1..];
      var text, rest := MarkText(ms, quote), MarkText(more, quote);
      MarksDecode(more, quote);
      match ms[0]
      case Itself(c) => assert text[0] == c && text[1..] == rest;
      case Twice => assert text[0] == quote && text[1] == quote && text[2..] == rest;
      case Slash(c) =>
        LettersDecode(c);
        assert text[0] == '\\' && text[1] == c && text[2..] == rest;
    }
  }

  lemma {:induction false} BodyIsMarked(body: string, quote: char) returns (ms: seq<Mark>)
    ensures LegibleMarks(ms, quote) && MarkText(ms, quote) == body
  {
    ms := [];
    if body != [] {
      var first, taken := Itself(body[0]), 1;
      if body[0] == quote && |body| > 1 && body[1] == quote {
        first, taken := Twice, 2;
      } else if body[0] == '\\' && |body| > 1 {
        first, taken := Slash(body[1]), 2;
      }
      var more := BodyIsMarked(body[taken..], quote);
      ms := [first] + more;
      assert ms[1..] == more;
    }
  }

  // Every body is decoded mark by mark, and each body has one reading.
  lemma DecodesExactly(body: string, quote: char, text: string)
    ensures Unescaped(body, quote) == text <==>
            exists ms :: LegibleMarks(ms, quote) && MarkText(ms, quote) == body &&
                         text == seq(|ms|, i requires 0 <= i < |ms| => MarkMeaning(ms[i], quote))
  {
    if Unescaped(body, quote) == text {
      var ms := BodyIsMarked(body, quote);
      MarksDecode(ms, quote);
    }
    forall ms | LegibleMarks(ms, quote) && MarkText(ms, quote) == body
      ensures Unescaped(body, quote) == seq(|ms|, i requires 0 <= i < |ms| => MarkMeaning(ms[i], quote))
    {
      MarksDecode(ms, quote);
    }
  }
}
