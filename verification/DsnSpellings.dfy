// Every way to write a key=value connection string, and that the tokeniser
// reads exactly those.
module DsnSpellings {
  import opened Collections
  import opened Text
  import opened DsnTokens

  // A character of a value, written as itself or after a backslash.
  datatype Piece = Plain(c: char) | Slashed(c: char)

  // One token as it stands in the text: white space, key, white space, equals
  // sign, white space, value.
  datatype Spelling = Spelling(
    lead: string, key: string, before: string, after: string, quoted: bool, pieces: seq<Piece>)

  predicate White(c: char) {
    c == ' ' || c == '\t' || c == '\n' || c == '\r' || c == '\U{0B}' || c == '\U{0C}'
  }

  predicate Blank(s: string) {
    forall i :: 0 <= i < |s| ==> White(s[i])
  }

  function PieceText(pieces: seq<Piece>): string {
    if pieces == [] then ""
    else match pieces[0]
         case Plain(c) => [c] + PieceText(pieces[1..])
         case Slashed(c) => ['\\', c] + PieceText(pieces[1..])
  }

  function Meant(pieces: seq<Piece>): string {
    if pieces == [] then "" else [pieces[0].c] + Meant(pieces[1..])
  }

  function ValueText(w: Spelling): string {
    if w.quoted then "'" + (PieceText(w.pieces) + "'") else PieceText(w.pieces)
  }

  function Spelled(w: Spelling, rest: string): string {
    w.lead + (w.key + (w.before + ("=" + (w.after + (ValueText(w) + rest)))))
  }

  function TextOf(ws: seq<Spelling>, trail: string): string {
    if ws == [] then trail else Spelled(ws[0], TextOf(ws[1..], trail))
  }

  function TokensOf(ws: seq<Spelling>): seq<Token> {
    if ws == [] then [] else [Token(ws[0].key, Meant(ws[0].pieces))] + TokensOf(ws[1..])
  }

  predicate PlainIn(quoted: bool, pieces: seq<Piece>) {
    forall i :: 0 <= i < |pieces| && pieces[i].Plain? ==>
      pieces[i].c != '\\' && if quoted then pieces[i].c != '\'' else !White(pieces[i].c)
  }

  // The token ends where its text does, and nothing in it is mistaken.
  predicate Legible(w: Spelling, rest: string) {
    && Blank(w.lead) && Blank(w.before) && Blank(w.after)
    && (forall i :: 0 <= i < |w.key| ==> !White(w.key[i]) && w.key[i] != '=')
    && (w.key == "" ==> w.before == "")
    && PlainIn(w.quoted, w.pieces)
    && (!w.quoted ==>
          && (rest == [] || White(rest[0]))
          && (if w.pieces == [] then rest == [] else w.pieces[0] != Plain('\'')))
  }

  predicate AllLegible(ws: seq<Spelling>, trail: string) {
    if ws == [] then Blank(trail) else Legible(ws[0], TextOf(ws[1..], trail)) && AllLegible(ws[1..], trail)
  }

  lemma WhiteIsSpace(c: char)
    ensures White(c) <==> IsSpace(c)
  {
    assert SPACES[0] == ' ' && SPACES[1] == '\t' && SPACES[2] == '\n' && SPACES[3] == '\r';
    assert SPACES[4] == '\U{0B}' && SPACES[5] == '\U{0C}';
  }

  // ---- What is written is read ----

  lemma {:induction false} SkipsBlank(b: string, x: string)
    requires Blank(b) && (x == [] || !White(x[0]))
    ensures SkipSpace(b + x) == x
  {
    if b == [] {
      assert b + x == x;
      if x != [] { WhiteIsSpace(x[0]); }
    } else {
      WhiteIsSpace(b[0]);
      SkipsBlank(b[1..], x);
      assert (b + x)[1..] == b[1..] + x;
    }
  }

  lemma {:induction false} KeyIsRead(key: string, rest: string)
    requires forall i :: 0 <= i < |key| ==> !White(key[i]) && key[i] != '='
    requires rest != [] && (White(rest[0]) || rest[0] == '=')
    ensures KeyAt(key + rest) == key
  {
    if key == [] {
      assert key + rest == rest;
      WhiteIsSpace(rest[0]);
    } else {
      WhiteIsSpace(key[0]);
      KeyIsRead(key[1..], rest);
      assert (key + rest)[1..] == key[1..] + rest;
    }
  }

  lemma PieceFirst(pieces: seq<Piece>, rest: string)
    requires pieces != []
    ensures var more := PieceText(pieces[1..]) + rest;
            PieceText(pieces) + rest == if pieces[0].Plain? then [pieces[0].c] + more else ['\\', pieces[0].c] + more
  {
  }

  lemma PlainTail(quoted: bool, pieces: seq<Piece>)
    requires pieces != [] && PlainIn(quoted, pieces)
    ensures PlainIn(quoted, pieces[1..])
  {
  }

  lemma {:induction false} UnquotedIsRead(pieces: seq<Piece>, rest: string)
    requires PlainIn(false, pieces) && (rest == [] || White(rest[0]))
    ensures Unquoted(PieceText(pieces) + rest) == Some((Meant(pieces), rest))
  {
    var s := PieceText(pieces) + rest;
    if pieces == [] {
      assert s == rest;
      if rest != [] { WhiteIsSpace(rest[0]); }
    } else {
      var more := PieceText(pieces[1..]) + rest;
      PieceFirst(pieces, rest);
      PlainTail(false, pieces);
      UnquotedIsRead(pieces[1..], rest);
      WhiteIsSpace(s[0]);
      if pieces[0].Plain? {
        assert s[0] == pieces[0].c && s[1..] == more;
      } else {
        assert s[0] == '\\' && s[1] == pieces[0].c && s[2..] == more;
      }
    }
  }

  lemma {:induction false} QuotedIsRead(pieces: seq<Piece>, rest: string)
    requires PlainIn(true, pieces)
    ensures Quoted(PieceText(pieces) + (['\''] + rest)) == Some((Meant(pieces), rest))
  {
    var close := ['\''] + rest;
    var s := PieceText(pieces) + close;
    if pieces == [] {
      assert s == close && close[1..] == rest;
    } else {
      var more := PieceText(pieces[1..]) + close;
      PieceFirst(pieces, close);
      PlainTail(true, pieces);
      QuotedIsRead(pieces[1..], rest);
      if pieces[0].Plain? {
        assert s[0] == pieces[0].c && s[1..] == more;
      } else {
        assert s[0] == '\\' && s[1] == pieces[0].c && s[2..] == more;
      }
    }
  }

  lemma ValueIsRead(w: Spelling, rest: string)
    requires Legible(w, rest)
    ensures var s := ValueText(w) + rest;
            ValueAt(s) == Some((Meant(w.pieces), rest)) && (s == [] || !White(s[0]))
  {
    var s := ValueText(w) + rest;
    if w.quoted {
      assert s == ['\''] + (PieceText(w.pieces) + (['\''] + rest));
      QuotedIsRead(w.pieces, rest);
      assert s[1..] == PieceText(w.pieces) + (['\''] + rest);
    } else {
      UnquotedIsRead(w.pieces, rest);
      if w.pieces != [] {
        PieceFirst(w.pieces, rest);
      } else {
        assert s == [];
      }
    }
  }

  lemma TokenIsRead(w: Spelling, rest: string)
    requires Legible(w, rest)
    ensures var t := SkipSpace(Spelled(w, rest));
            t != [] && TokenAt(t) == Some((Token(w.key, Meant(w.pieces)), rest))
  {
    var value := ValueText(w) + rest;
    var from := ['='] + (w.after + value);
    var tail := w.before + from;
    var t := w.key + tail;
    assert Spelled(w, rest) == w.lead + t;
    assert t[0] == if w.key == "" then '=' else w.key[0];
    SkipsBlank(w.lead, t);
    KeyIsRead(w.key, tail);
    assert t[|w.key|..] == tail;
    SkipsBlank(w.before, from);
    assert from[1..] == w.after + value;
    ValueIsRead(w, rest);
    SkipsBlank(w.after, value);
  }

  // However the tokens are written, they are read.
  lemma {:induction false} SpellingsRead(ws: seq<Spelling>, trail: string)
    requires AllLegible(ws, trail)
    ensures Parse(TextOf(ws, trail)) == Some(TokensOf(ws))
  {
    if ws == [] {
      assert trail + [] == trail;
      SkipsBlank(trail, []);
    } else {
      var rest := TextOf(ws[1..], trail);
      SpellingsRead(ws[1..], trail);
      TokenIsRead(ws[0], rest);
    }
  }

  // ---- What is read was written so ----

  lemma {:induction false} BlankSkipped(s: string) returns (b: string)
    ensures Blank(b) && s == b + SkipSpace(s) && (SkipSpace(s) == [] || !White(SkipSpace(s)[0]))
  {
    b := [];
    if s != [] {
      WhiteIsSpace(s[0]);
      if IsSpace(s[0]) {
        var more := BlankSkipped(s[1..]);
        b := [s[0]] + more;
      }
    }
  }

  lemma {:induction false} KeyApart(s: string)
    ensures |KeyAt(s)| <= |s| && s == KeyAt(s) + s[|KeyAt(s)|..]
    ensures forall i :: 0 <= i < |KeyAt(s)| ==> !White(KeyAt(s)[i]) && KeyAt(s)[i] != '='
    ensures |KeyAt(s)| < |s| ==> White(s[|KeyAt(s)|]) || s[|KeyAt(s)|] == '='
  {
    if s != [] {
      WhiteIsSpace(s[0]);
      KeyApart(s[1..]);
    }
  }

  lemma PiecesGrow(p: Piece, pieces: seq<Piece>, quoted: bool)
    requires PlainIn(quoted, pieces) && PlainIn(quoted, [p])
    ensures PlainIn(quoted, [p] + pieces) && ([p] + pieces)[1..] == pieces
    ensures PieceText([p] + pieces) == (if p.Plain? then [p.c] else ['\\', p.c]) + PieceText(pieces)
    ensures Meant([p] + pieces) == [p.c] + Meant(pieces)
  {
    assert [p][0] == p;
    assert ([p] + pieces)[1..] == pieces;
  }

  lemma {:induction false} UnquotedPieces(s: string) returns (pieces: seq<Piece>)
    requires Unquoted(s).Some?
    ensures var (value, rest) := Unquoted(s).value;
            && PlainIn(false, pieces) && s == PieceText(pieces) + rest && Meant(pieces) == value
            && (rest == [] || White(rest[0]))
    ensures pieces != [] && pieces[0].Plain? ==> s != [] && pieces[0].c == s[0]
    decreases |s|
  {
    pieces := [];
    if s != [] {
      WhiteIsSpace(s[0]);
      if !IsSpace(s[0]) {
        if s[0] != '\\' {
          var more := UnquotedPieces(s[1..]);
          PiecesGrow(Plain(s[0]), more, false);
          pieces := [Plain(s[0])] + more;
        } else {
          var more := UnquotedPieces(s[2..]);
          PiecesGrow(Slashed(s[1]), more, false);
          pieces := [Slashed(s[1])] + more;
          assert s == ['\\', s[1]] + s[2..];
        }
      }
    }
  }

  lemma {:induction false} QuotedPieces(s: string) returns (pieces: seq<Piece>)
    requires Quoted(s).Some?
    ensures var (value, rest) := Quoted(s).value;
            PlainIn(true, pieces) && s == PieceText(pieces) + (['\''] + rest) && Meant(pieces) == value
    decreases |s|
  {
    pieces := [];
    if s[0] != '\'' {
      if s[0] != '\\' {
        var more := QuotedPieces(s[1..]);
        PiecesGrow(Plain(s[0]), more, true);
        pieces := [Plain(s[0])] + more;
      } else {
        var more := QuotedPieces(s[2..]);
        PiecesGrow(Slashed(s[1]), more, true);
        pieces := [Slashed(s[1])] + more;
        assert s == ['\\', s[1]] + s[2..];
      }
    } else {
      assert s == ['\''] + s[1..];
    }
  }

  lemma ValueSpelled(s: string) returns (quoted: bool, pieces: seq<Piece>)
    requires ValueAt(s).Some? && (s == [] || !White(s[0]))
    ensures var (value, rest) := ValueAt(s).value;
            && PlainIn(quoted, pieces) && Meant(pieces) == value
            && s == (if quoted then "'" + (PieceText(pieces) + "'") else PieceText(pieces)) + rest
            && (!quoted ==>
                  && (rest == [] || White(rest[0]))
                  && (if pieces == [] then rest == [] else pieces[0] != Plain('\'')))
  {
    if s != [] && s[0] == '\'' {
      quoted := true;
      pieces := QuotedPieces(s[1..]);
      var rest := Quoted(s[1..]).value.1;
      assert s == ['\''] + s[1..];
      assert "'" + (PieceText(pieces) + "'") + rest == ['\''] + (PieceText(pieces) + (['\''] + rest));
    } else {
      quoted := false;
      pieces := UnquotedPieces(s);
    }
  }

  lemma TokenSpelled(s: string) returns (w: Spelling)
    requires SkipSpace(s) != [] && TokenAt(SkipSpace(s)).Some?
    ensures var (token, rest) := TokenAt(SkipSpace(s)).value;
            Legible(w, rest) && s == Spelled(w, rest) && token == Token(w.key, Meant(w.pieces))
  {
    var lead := BlankSkipped(s);
    w := KeySpelled(SkipSpace(s), lead);
  }

  lemma KeySpelled(t: string, lead: string) returns (w: Spelling)
    requires t != [] && !White(t[0]) && TokenAt(t).Some? && Blank(lead)
    ensures var (token, rest) := TokenAt(t).value;
            Legible(w, rest) && lead + t == Spelled(w, rest) && token == Token(w.key, Meant(w.pieces))
  {
    KeyApart(t);
    var key := KeyAt(t);
    var tail := t[|key|..];
    var before := BlankSkipped(tail);
    var from := SkipSpace(tail);
    var after := BlankSkipped(from[1..]);
    var value := SkipSpace(from[1..]);
    var quoted, pieces := ValueSpelled(value);
    var rest := ValueAt(value).value.1;
    w := Spelling(lead, key, before, after, quoted, pieces);
    EqualsApart(from, after, value);
    assert value == ValueText(w) + rest;
    assert key == [] ==> before == [];
  }

  lemma EqualsApart(from: string, after: string, value: string)
    requires from != [] && from[0] == '=' && from[1..] == after + value
    ensures from == "=" + (after + value)
  {
    assert from == ['='] + from[1..];
  }

  // What the tokeniser accepts is written so, and means what it reads.
  lemma {:induction false} ParsedIsSpelled(s: string) returns (ws: seq<Spelling>, trail: string)
    requires Parse(s).Some?
    ensures AllLegible(ws, trail) && s == TextOf(ws, trail) && Parse(s).value == TokensOf(ws)
    decreases |s|
  {
    var t := SkipSpace(s);
    SkipShorter(s);
    if t == [] {
      ws := [];
      trail := BlankSkipped(s);
      assert trail + [] == trail;
    } else {
      TokenShorter(t);
      var rest := TokenAt(t).value.1;
      var w := TokenSpelled(s);
      var more;
      more, trail := ParsedIsSpelled(rest);
      ws := [w] + more;
      assert ws[1..] == more;
    }
  }

  // A string is accepted exactly when it can be written so.
  lemma AcceptsExactlySpellings(s: string, ts: seq<Token>)
    ensures Parse(s) == Some(ts) <==>
            exists ws, trail :: AllLegible(ws, trail) && s == TextOf(ws, trail) && ts == TokensOf(ws)
  {
    if Parse(s) == Some(ts) {
      var ws, trail := ParsedIsSpelled(s);
    }
    forall ws, trail | AllLegible(ws, trail) && s == TextOf(ws, trail) && ts == TokensOf(ws)
      ensures Parse(s) == Some(ts)
    {
      SpellingsRead(ws, trail);
    }
  }

  // ---- What is printed ----

  // A value is quoted when it is empty or holds white space, a quote or a
  // backslash, and the last two are what a backslash is put before.
  function PrintedValue(v: string): (bool, seq<Piece>) {
    (v == "" || exists i :: 0 <= i < |v| && (White(v[i]) || v[i] == '\'' || v[i] == '\\'),
     seq(|v|, i requires 0 <= i < |v| => if v[i] == '\'' || v[i] == '\\' then Slashed(v[i]) else Plain(v[i])))
  }

  function PrintedToken(t: Token, lead: string): Spelling {
    var (quoted, pieces) := PrintedValue(t.value);
    Spelling(lead, t.key, "", "", quoted, pieces)
  }

  function PrintedTokens(ts: seq<Token>, lead: string): seq<Spelling> {
    if ts == [] then [] else [PrintedToken(ts[0], lead)] + PrintedTokens(ts[1..], " ")
  }

  lemma {:induction false} PiecesAreEscapes(v: string)
    ensures PieceText(PrintedValue(v).1) == Mapped(Escaped, v)
    ensures (forall c :: c in v ==> !Special(c)) ==> PieceText(PrintedValue(v).1) == v
  {
    var pieces := PrintedValue(v).1;
    if v != "" {
      assert pieces[1..] == PrintedValue(v[1..]).1;
      assert v[0] in v && forall c :: c in v[1..] ==> c in v;
      PiecesAreEscapes(v[1..]);
    }
  }

  lemma QuotedWhenSpecial(v: string)
    ensures PrintedValue(v).0 <==> v == "" || exists c :: c in v && Special(c)
  {
    forall c ensures Special(c) <==> White(c) || c == '\'' || c == '\\' {
      WhiteIsSpace(c);
    }
    if c :| c in v && Special(c) {
      var i :| 0 <= i < |v| && v[i] == c;
    }
    if PrintedValue(v).0 && v != "" {
      var i :| 0 <= i < |v| && (White(v[i]) || v[i] == '\'' || v[i] == '\\');
      assert v[i] in v && Special(v[i]);
    }
  }

  lemma ValueIsPrinted(t: Token)
    ensures ValueText(PrintedToken(t, "")) == QuoteKV(t.value)
  {
    var v := t.value;
    QuotedWhenSpecial(v);
    PiecesAreEscapes(v);
    if PrintedValue(v).0 {
      EscapesEach(v);
      var body := Mapped(Escaped, v);
      assert "'" + (body + "'") == "'" + body + "'";
      if v == "" { assert "'" + body + "'" == "''"; }
    }
  }

  lemma TokenIsPrinted(t: Token, lead: string, more: string)
    ensures Spelled(PrintedToken(t, lead), more) == lead + (Pair(t) + more)
  {
    ValueIsPrinted(t);
    var w, value := PrintedToken(t, lead), QuoteKV(t.value);
    assert ValueText(w) == value;
    assert w.before + ("=" + (w.after + (value + more))) == "=" + (value + more);
    Associates("=", value, more);
    Associates(t.key, "=" + value, more);
  }

  // Tokens are printed in order, one space between them, quoted where they must be.
  lemma {:induction false} PrintedAsSpelled(ts: seq<Token>, lead: string)
    ensures TextOf(PrintedTokens(ts, lead), "") == if ts == [] then "" else lead + Build(ts)
  {
    if ts != [] {
      PrintedAsSpelled(ts[1..], " ");
      var more := TextOf(PrintedTokens(ts[1..], " "), "");
      assert PrintedTokens(ts, lead)[1..] == PrintedTokens(ts[1..], " ");
      TokenIsPrinted(ts[0], lead, more);
      if |ts| == 1 {
        assert Pair(ts[0]) + "" == Pair(ts[0]);
      }
    }
  }
}
