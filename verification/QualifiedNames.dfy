// Quoting identifiers, joining them into a qualified name, and taking one apart.
module QualifiedNames {
  import opened Text

  datatype Dialect = PostgreSQL | MySQL

  function QuoteChar(d: Dialect): char {
    if d.PostgreSQL? then '\"' else '`'
  }

  // ---- ASCII ----

  predicate IsAscii(s: string) {
    forall c :: c in s ==> c < '\U{80}'
  }

  predicate IsUpper(c: char) {
    'A' <= c <= 'Z'
  }

  predicate IsLetter(c: char) {
    IsUpper(c) || 'a' <= c <= 'z'
  }

  predicate IsDigit(c: char) {
    '0' <= c <= '9'
  }

  function LowerChar(c: char): char {
    if IsUpper(c) then (c as int + 32) as char else c
  }

  function UpperChar(c: char): char {
    if 'a' <= c <= 'z' then (c as int - 32) as char else c
  }

  function ToLower(s: string): string {
    seq(|s|, i requires 0 <= i < |s| => LowerChar(s[i]))
  }

  function ToUpper(s: string): string {
    seq(|s|, i requires 0 <= i < |s| => UpperChar(s[i]))
  }

  // ---- Quoting ----

  predicate Starts(d: Dialect, c: char) {
    IsLetter(c) || c == '_' || (d.MySQL? && c == '$')
  }

  predicate IsValidUnquotedIdentifier(d: Dialect, s: string) {
    && s != [] && Starts(d, s[0])
    && forall i :: 0 < i < |s| ==> Starts(d, s[i]) || IsDigit(s[i])
  }

  function Enclose(q: char, name: string): string {
    [q] + (Replace(name, q, [q, q]) + [q])
  }

  function QuoteIdentifierIfNeeded(d: Dialect, name: string, reserved: set<string>): string {
    if ToLower(name) != name || ToUpper(name) in reserved || !IsValidUnquotedIdentifier(d, name)
    then Enclose(QuoteChar(d), name)
    else name
  }

  function Join(parts: seq<string>): string {
    if parts == [] then "" else if |parts| == 1 then parts[0] else parts[0] + ("." + Join(parts[1..]))
  }

  function QuoteAll(d: Dialect, names: seq<string>, reserved: set<string>): seq<string> {
    if names == [] then []
    else [QuoteIdentifierIfNeeded(d, names[0], reserved)] + QuoteAll(d, names[1..], reserved)
  }

  // ---- Normalizing ----

  // strings.ReplaceAll of the quote written twice by the quote.
  function Undouble(q: char, s: string): string {
    if s == [] then []
    else if |s| > 1 && s[0] == q && s[1] == q then [q] + Undouble(q, s[2..])
    else [s[0]] + Undouble(q, s[1..])
  }

  predicate Enclosed(q: char, s: string) {
    |s| >= 2 && s[0] == q && s[|s| - 1] == q
  }

  function NormalizeIdentifier(d: Dialect, raw: string): string {
    var q := QuoteChar(d);
    if Enclosed(q, raw) then Undouble(q, raw[1..|raw| - 1])
    else if d.PostgreSQL? && Enclosed('\'', raw) then ToLower(raw[1..|raw| - 1])
    else ToLower(raw)
  }

  // ---- Splitting ----

  // The rest of a quoted run, its closing quote included, and what follows it.
  function QuotedRun(q: char, s: string): (string, string) {
    if s == [] then ([], [])
    else if s[0] != q then InFront([s[0]], QuotedRun(q, s[1..]))
    else if |s| > 1 && s[1] == q then InFront([q, q], QuotedRun(q, s[2..]))
    else ([q], s[1..])
  }

  function InFront(t: string, r: (string, string)): (string, string) {
    (t + r.0, r.1)
  }

  lemma {:induction false} RunShorter(q: char, s: string)
    ensures |QuotedRun(q, s).1| <= |s|
    decreases |s|
  {
    if s != [] {
      if s[0] != q { RunShorter(q, s[1..]); } else if |s| > 1 && s[1] == q { RunShorter(q, s[2..]); }
    }
  }

  function Flush(buf: string): seq<string> {
    if TrimSpace(buf) == "" then [] else [TrimSpace(buf)]
  }

  // The parts of s, where buf is what the current part holds so far.
  function SplitFrom(q: char, s: string, buf: string): seq<string>
    decreases |s|
  {
    if s == [] then Flush(buf)
    else if s[0] == q then
      RunShorter(q, s[1..]);
      var (run, rest) := QuotedRun(q, s[1..]);
      SplitFrom(q, rest, buf + ([q] + run))
    else if s[0] == '.' then Flush(buf) + SplitFrom(q, s[1..], [])
    else SplitFrom(q, s[1..], buf + [s[0]])
  }

  method RunFrom(q: char, s: string, from: nat, start: string) returns (buf: string, i: nat)
    requires from <= |s|
    ensures from <= i <= |s| && (buf, s[i..]) == InFront(start, QuotedRun(q, s[from..]))
  {
    buf, i := start, from;
    var inQuote := true;
    while inQuote && i < |s|
      invariant from <= i <= |s|
      invariant InFront(start, QuotedRun(q, s[from..])) ==
                if inQuote then InFront(buf, QuotedRun(q, s[i..])) else (buf, s[i..])
      decreases |s| - i
    {
      ghost var rest, was := s[i..], buf;
      var c := s[i];
      buf := buf + [c];
      i := i + 1;
      assert rest[1..] == s[i..];
      if c == q {
        if i < |s| && s[i] == q {
          buf := buf + [q];
          i := i + 1;
          assert rest[2..] == s[i..];
          Associates(was, [q], [q]);
          assert buf == was + [q, q];
          Associates(was, [q, q], QuotedRun(q, s[i..]).0);
          continue;
        }
        inQuote := false;
      } else {
        Associates(was, [c], QuotedRun(q, s[i..]).0);
      }
    }
    assert s[|s|..] == [] && buf + [] == buf;
  }

  method SplitQualifiedIdentifier(s: string, q: char) returns (parts: seq<string>)
    ensures parts == SplitFrom(q, s, [])
  {
    parts := [];
    var buf, i: nat := [], 0;
    assert s[0..] == s;
    while i < |s|
      invariant i <= |s| && SplitFrom(q, s, []) == parts + SplitFrom(q, s[i..], buf)
      decreases |s| - i
    {
      ghost var rest := s[i..];
      assert rest[1..] == s[i + 1..];
      var c := s[i];
      if c == q {
        ghost var was, run := buf, QuotedRun(q, rest[1..]);
        buf, i := RunFrom(q, s, i + 1, buf + [c]);
        Associates(was, [q], run.0);
        continue;
      }
      if c == '.' {
        ghost var was := parts;
        if TrimSpace(buf) != "" {
          parts := parts + [TrimSpace(buf)];
        }
        assert parts == was + Flush(buf);
        buf := [];
        i := i + 1;
        continue;
      }
      buf := buf + [c];
      i := i + 1;
    }
    if |buf| > 0 {
      if TrimSpace(buf) != "" {
        parts := parts + [TrimSpace(buf)];
      }
    }
    assert s[|s|..] == [];
  }

  function NormalizeAll(d: Dialect, parts: seq<string>): seq<string> {
    if parts == [] then [] else [NormalizeIdentifier(d, parts[0])] + NormalizeAll(d, parts[1..])
  }

  function NormalizeQualified(d: Dialect, s: string): seq<string> {
    NormalizeAll(d, SplitFrom(QuoteChar(d), s, []))
  }

  method NormalizeQualifiedName(d: Dialect, s: string) returns (names: seq<string>)
    ensures names == NormalizeQualified(d, s)
  {
    var parts := SplitQualifiedIdentifier(s, QuoteChar(d));
    names := [];
    for i := 0 to |parts|
      invariant names + NormalizeAll(d, parts[i..]) == NormalizeAll(d, parts)
    {
      assert parts[i..][1..] == parts[i + 1..];
      names := names + [NormalizeIdentifier(d, parts[i])];
    }
    assert parts[|parts|..] == [];
  }

  // ---- The round trip ----

  lemma {:induction false} UndoubleDoubled(q: char, name: string)
    ensures Undouble(q, Replace(name, q, [q, q])) == name
  {
    if name != [] {
      var rest := Replace(name[1..], q, [q, q]);
      UndoubleDoubled(q, name[1..]);
      var whole := Replace(name, q, [q, q]);
      if name[0] == q {
        assert whole[0] == q && whole[1] == q && whole[2..] == rest;
      } else {
        assert whole[0] == name[0] && whole[1..] == rest;
      }
      assert name == [name[0]] + name[1..];
    }
  }

  // What may follow a part: nothing, or the dot before the next.
  predicate Separates(rest: string) {
    rest == [] || rest[0] == '.'
  }

  lemma {:induction false} RunOfDoubled(q: char, name: string, rest: string)
    requires Separates(rest) && q != '.'
    ensures QuotedRun(q, Replace(name, q, [q, q]) + ([q] + rest)) == (Replace(name, q, [q, q]) + [q], rest)
  {
    var close := [q] + rest;
    if name == [] {
      assert Replace(name, q, [q, q]) == [] && [] + close == close && close[1..] == rest && [] + [q] == [q];
    } else {
      var tail, head := Replace(name[1..], q, [q, q]), if name[0] == q then [q, q] else [name[0]];
      RunOfDoubled(q, name[1..], rest);
      Associates(head, tail, close);
      Associates(head, tail, [q]);
      var s := head + (tail + close);
      if name[0] == q {
        assert s[0] == q && s[1] == q && s[2..] == tail + close;
      } else {
        assert s[0] == name[0] && s[1..] == tail + close;
      }
    }
  }

  lemma {:induction false} PlainRun(q: char, name: string, rest: string, buf: string)
    requires forall c :: c in name ==> c != q && c != '.'
    ensures SplitFrom(q, name + rest, buf) == SplitFrom(q, rest, buf + name)
  {
    if name == [] {
      assert [] + rest == rest && buf + [] == buf;
    } else {
      assert name[0] in name && forall c :: c in name[1..] ==> c in name;
      PlainRun(q, name[1..], rest, buf + [name[0]]);
      assert (name + rest)[1..] == name[1..] + rest;
      assert buf + [name[0]] + name[1..] == buf + name;
    }
  }

  lemma FlushPart(part: string)
    requires part != [] && !IsSpace(part[0]) && !IsSpace(part[|part| - 1])
    ensures Flush(part) == [part]
  {
    TrimTrims(part);
  }

  lemma EnclosedSplits(q: char, name: string, rest: string)
    requires Separates(rest) && q != '.' && !IsSpace(q)
    ensures SplitFrom(q, Enclose(q, name) + rest, []) == SplitFrom(q, rest, Enclose(q, name))
  {
    var body := Replace(name, q, [q, q]);
    var s := Enclose(q, name) + rest;
    assert s[0] == q && s[1..] == body + ([q] + rest);
    RunOfDoubled(q, name, rest);
    assert [] + ([q] + (body + [q])) == Enclose(q, name);
  }

  // A part that splits off whole and normalizes to the name it was made from.
  ghost predicate ReadsAs(d: Dialect, part: string, name: string, rest: string) {
    && SplitFrom(QuoteChar(d), part + rest, []) == SplitFrom(QuoteChar(d), rest, part)
    && Flush(part) == [part] && NormalizeIdentifier(d, part) == name
  }

  lemma EnclosedReads(d: Dialect, name: string, rest: string)
    requires Separates(rest)
    ensures ReadsAs(d, Enclose(QuoteChar(d), name), name, rest)
  {
    var q := QuoteChar(d);
    var part := Enclose(q, name);
    EnclosedSplits(q, name, rest);
    FlushPart(part);
    assert part[1..|part| - 1] == Replace(name, q, [q, q]);
    UndoubleDoubled(q, name);
  }

  lemma PlainReads(d: Dialect, name: string, rest: string)
    requires ToLower(name) == name && IsValidUnquotedIdentifier(d, name)
    ensures ReadsAs(d, name, name, rest)
  {
    PlainIsPlain(d, name);
    PlainRun(QuoteChar(d), name, rest, []);
    assert [] + name == name;
    FlushPart(name);
  }

  lemma QuotedReads(d: Dialect, name: string, reserved: set<string>, rest: string)
    requires Separates(rest)
    ensures ReadsAs(d, QuoteIdentifierIfNeeded(d, name, reserved), name, rest)
  {
    if ToLower(name) != name || ToUpper(name) in reserved || !IsValidUnquotedIdentifier(d, name) {
      EnclosedReads(d, name, rest);
    } else {
      PlainReads(d, name, rest);
    }
  }

  lemma PlainIsPlain(d: Dialect, name: string)
    requires IsValidUnquotedIdentifier(d, name)
    ensures forall c :: c in name ==> c != QuoteChar(d) && c != '.' && !IsSpace(c) && c != '\''
    ensures name[0] in name && name[|name| - 1] in name
  {
    forall c | c in name ensures c != QuoteChar(d) && c != '.' && !IsSpace(c) && c != '\'' {
      var i :| 0 <= i < |name| && name[i] == c;
      assert Starts(d, c) || IsDigit(c);
    }
  }

  // Quoting, joining and normalizing give the names back: dots, quotes, spaces,
  // capitals, reserved words and empty names included.
  lemma {:induction false} NamesRoundTrip(d: Dialect, names: seq<string>, reserved: set<string>)
    requires forall name :: name in names ==> IsAscii(name)
    ensures NormalizeQualified(d, Join(QuoteAll(d, names, reserved))) == names
  {
    var q := QuoteChar(d);
    if names == [] {
      TrimTrims("");
    } else {
      var parts, more := QuoteAll(d, names, reserved), QuoteAll(d, names[1..], reserved);
      var part := QuoteIdentifierIfNeeded(d, names[0], reserved);
      assert parts == [part] + more && parts[1..] == more;
      assert names == [names[0]] + names[1..];
      if |names| == 1 {
        QuotedReads(d, names[0], reserved, []);
        assert more == [] && Join(parts) == part && part + [] == part;
        NormalizeOne(d, part, []);
        assert [part] + [] == [part];
      } else {
        NamesRoundTrip(d, names[1..], reserved);
        var rest := "." + Join(more);
        QuotedReads(d, names[0], reserved, rest);
        assert |more| > 0 && Join(parts) == part + rest;
        DotSplits(q, part, Join(more));
        NormalizeOne(d, part, SplitFrom(q, Join(more), []));
      }
    }
  }

  lemma DotSplits(q: char, part: string, more: string)
    requires q != '.' && Flush(part) == [part]
    ensures SplitFrom(q, "." + more, part) == [part] + SplitFrom(q, more, [])
  {
    assert ("." + more)[1..] == more;
  }

  lemma NormalizeOne(d: Dialect, part: string, more: seq<string>)
    ensures NormalizeAll(d, [part] + more) == [NormalizeIdentifier(d, part)] + NormalizeAll(d, more)
  {
    assert ([part] + more)[1..] == more;
  }

  // ---- What is quoted, and how ----

  // In lower case, starting with no digit, and of letters, digits and '_', in
  // MySQL '$' too.
  predicate Plain(d: Dialect, name: string) {
    && name != "" && !('0' <= name[0] <= '9')
    && forall i :: 0 <= i < |name| ==>
         'a' <= name[i] <= 'z' || '0' <= name[i] <= '9' || name[i] == '_' || (d.MySQL? && name[i] == '$')
  }

  lemma PlainIsValid(d: Dialect, name: string)
    ensures Plain(d, name) <==> ToLower(name) == name && IsValidUnquotedIdentifier(d, name)
  {
    LowerMeans(name);
    if ToLower(name) == name && IsValidUnquotedIdentifier(d, name) {
      forall i | 0 <= i < |name|
        ensures 'a' <= name[i] <= 'z' || '0' <= name[i] <= '9' || name[i] == '_' || (d.MySQL? && name[i] == '$')
      {
        assert Starts(d, name[i]) || IsDigit(name[i]);
      }
    }
  }

  // A plain name that is no reserved word is left bare; any other is put in
  // quotes with those inside it doubled.
  lemma QuotesExactly(d: Dialect, name: string, reserved: set<string>)
    ensures var q := if d.PostgreSQL? then '\"' else '`';
            QuoteIdentifierIfNeeded(d, name, reserved) ==
              if Plain(d, name) && ToUpper(name) !in reserved then name
              else [q] + Mapped(c => if c == q then [q, q] else [c], name) + [q]
  {
    var q := QuoteChar(d);
    PlainIsValid(d, name);
    ReplaceIsMapped(name, q, [q, q]);
    MappedSame(x => if x == q then [q, q] else [x], c => if c == q then [q, q] else [c], name);
    Associates([q], Replace(name, q, [q, q]), [q]);
  }

  lemma LowerMeans(name: string)
    ensures ToLower(name) == name <==> forall i :: 0 <= i < |name| ==> !IsUpper(name[i])
  {
    if ToLower(name) == name {
      forall i | 0 <= i < |name| ensures !IsUpper(name[i]) {
        assert ToLower(name)[i] == LowerChar(name[i]);
      }
    }
  }

  // Capitals become small letters, or small letters capitals, and nothing else changes.
  lemma CaseExactly(s: string, i: nat)
    requires i < |s|
    ensures |ToLower(s)| == |s| && |ToUpper(s)| == |s|
    ensures ToLower(s)[i] == if 'A' <= s[i] <= 'Z' then (s[i] as int + 32) as char else s[i]
    ensures ToUpper(s)[i] == if 'a' <= s[i] <= 'z' then (s[i] as int - 32) as char else s[i]
  {
  }

  // A quoted identifier, read: each pair of quotes, from the left, stands for
  // one, and every other character for itself.
  datatype Mark = Single(c: char) | Pair

  function MarkText(q: char, ms: seq<Mark>): string {
    if ms == [] then "" else (if ms[0].Pair? then [q, q] else [ms[0].c]) + MarkText(q, ms[1..])
  }

  function MarkNames(q: char, ms: seq<Mark>): string {
    seq(|ms|, i requires 0 <= i < |ms| => if ms[i].Pair? then q else ms[i].c)
  }

  // A single quote is not followed by another.
  predicate LegibleMarks(q: char, ms: seq<Mark>) {
    ms != [] ==>
      && LegibleMarks(q, ms[1..])
      && (ms[0] == Single(q) ==> var rest := MarkText(q, ms[1..]); rest == "" || rest[0] != q)
  }

  lemma {:induction false} MarksUndouble(q: char, ms: seq<Mark>)
    requires LegibleMarks(q, ms)
    ensures Undouble(q, MarkText(q, ms)) == MarkNames(q, ms)
  {
    if ms != [] {
      var text, rest := MarkText(q, ms), MarkText(q, ms[1..]);
      MarksUndouble(q, ms[1..]);
      if ms[0].Pair? {
        assert text[0] == q && text[1] == q && text[2..] == rest;
      } else {
        assert text[0] == ms[0].c && text[1..] == rest;
      }
    }
  }

  lemma {:induction false} TextIsMarked(q: char, s: string) returns (ms: seq<Mark>)
    ensures LegibleMarks(q, ms) && MarkText(q, ms) == s
  {
    ms := [];
    if s != [] {
      var first, taken := Single(s[0]), 1;
      if |s| > 1 && s[0] == q && s[1] == q {
        first, taken := Pair, 2;
      }
      var more := TextIsMarked(q, s[taken..]);
      ms := [first] + more;
      assert ms[1..] == more;
    }
  }

  // What an identifier is normalised to: the name between its quotes, with pairs
  // of quotes undone; in PostgreSQL the lowered text between single quotes; the
  // lowered text otherwise.
  lemma NormalizesExactly(d: Dialect, raw: string, name: string)
    ensures var q := if d.PostgreSQL? then '\"' else '`';
            NormalizeIdentifier(d, raw) == name <==>
              if |raw| >= 2 && raw[0] == q && raw[|raw| - 1] == q
              then exists ms :: LegibleMarks(q, ms) && raw == [q] + MarkText(q, ms) + [q] && name == MarkNames(q, ms)
              else if d.PostgreSQL? && |raw| >= 2 && raw[0] == '\'' && raw[|raw| - 1] == '\''
              then name == ToLower(raw[1..|raw| - 1])
              else name == ToLower(raw)
  {
    var q := QuoteChar(d);
    if Enclosed(q, raw) {
      var inner := raw[1..|raw| - 1];
      assert raw == [q] + inner + [q];
      var ms := TextIsMarked(q, inner);
      MarksUndouble(q, ms);
      forall ms | LegibleMarks(q, ms) && raw == [q] + MarkText(q, ms) + [q]
        ensures Undouble(q, inner) == MarkNames(q, ms)
      {
        MarksUndouble(q, ms);
        assert ([q] + MarkText(q, ms) + [q])[1..|raw| - 1] == MarkText(q, ms);
      }
    }
  }

  // ---- Where a qualified name is split ----

  // Whether s holds an even number of quotes.
  predicate Even(q: char, s: string) {
    if s == [] then true else Even(q, s[1..]) != (s[0] == q)
  }

  // Every dot of the part stands inside quotes.
  predicate Whole(q: char, part: string) {
    forall i :: 0 <= i < |part| && part[i] == '.' ==> !Even(q, part[..i])
  }

  // The parts of a name, of which only the last may leave a quote open.
  predicate Cut(q: char, parts: seq<string>) {
    && parts != []
    && (forall i :: 0 <= i < |parts| ==> Whole(q, parts[i]))
    && (forall i :: 0 <= i < |parts| - 1 ==> Even(q, parts[i]))
  }

  // The parts without the space around them, and without those that are empty.
  function Kept(parts: seq<string>): seq<string> {
    if parts == [] then []
    else (if TrimSpace(parts[0]) == "" then [] else [TrimSpace(parts[0])]) + Kept(parts[1..])
  }

  lemma {:induction false} EvenConcat(q: char, s: string, t: string)
    ensures Even(q, s + t) == (Even(q, s) == Even(q, t))
  {
    if s == [] {
      assert s + t == t;
    } else {
      EvenConcat(q, s[1..], t);
      assert (s + t)[1..] == s[1..] + t;
    }
  }

  // A run that is closed holds an odd number of quotes, and one that is not an even one.
  lemma {:induction false} RunParity(q: char, s: string)
    ensures var (run, more) := QuotedRun(q, s);
            s == run + more && (more != [] || !Even(q, s) ==> run != [] && !Even(q, run))
    decreases |s|
  {
    if s != [] {
      if s[0] != q {
        RunParity(q, s[1..]);
        RunAhead(q, [s[0]], s[1..], s);
      } else if |s| > 1 && s[1] == q {
        RunParity(q, s[2..]);
        assert s[1..][1..] == s[2..];
        RunAhead(q, [q, q], s[2..], s);
        assert [q, q][1..] == [q] && [q][1..] == [];
      } else {
        assert [q][1..] == [];
      }
    }
  }

  lemma RunAhead(q: char, head: string, tail: string, s: string)
    requires s == head + tail && QuotedRun(q, s) == InFront(head, QuotedRun(q, tail))
    requires tail == QuotedRun(q, tail).0 + QuotedRun(q, tail).1
    ensures var (run, more) := QuotedRun(q, tail);
            s == (head + run) + more && Even(q, s) == (Even(q, head) == Even(q, tail))
            && Even(q, head + run) == (Even(q, head) == Even(q, run))
  {
    EvenConcat(q, head, tail);
    EvenConcat(q, head, QuotedRun(q, tail).0);
  }

  lemma {:induction false} RunBefore(q: char, s: string, rest: string)
    requires Separates(rest) && q != '.' && (rest == [] || !Even(q, s))
    ensures QuotedRun(q, s + rest) == (QuotedRun(q, s).0, QuotedRun(q, s).1 + rest)
    decreases |s|
  {
    var both := s + rest;
    if s == [] {
      assert both == rest;
    } else if s[0] != q {
      RunBefore(q, s[1..], rest);
      assert both[1..] == s[1..] + rest;
    } else if |s| > 1 && s[1] == q {
      assert s[1..][1..] == s[2..];
      RunBefore(q, s[2..], rest);
      assert both[2..] == s[2..] + rest;
    } else {
      assert both[1..] == s[1..] + rest;
    }
  }

  lemma {:induction false} PartSplits(q: char, part: string, rest: string, buf: string)
    requires q != '.' && Whole(q, part) && Separates(rest) && (rest == [] || Even(q, part))
    ensures SplitFrom(q, part + rest, buf) == SplitFrom(q, rest, buf + part)
    decreases |part|
  {
    var both := part + rest;
    if part == [] {
      assert both == rest && buf + part == buf;
    } else if part[0] == q {
      var (run, more) := QuotedRun(q, part[1..]);
      RunParity(q, part[1..]);
      RunBefore(q, part[1..], rest);
      assert both[1..] == part[1..] + rest;
      RunShorter(q, part[1..]);
      assert part == ([q] + run) + more;
      LaterIsWhole(q, [q] + run, more);
      PartSplits(q, more, rest, buf + ([q] + run));
      Associates(buf, [q] + run, more);
    } else {
      assert part[0] != '.' by { assert Even(q, part[..0]); }
      assert [part[0]][1..] == [] && part == [part[0]] + part[1..];
      LaterIsWhole(q, [part[0]], part[1..]);
      PartSplits(q, part[1..], rest, buf + [part[0]]);
      assert both[1..] == part[1..] + rest;
      assert buf + [part[0]] + part[1..] == buf + part;
    }
  }

  lemma LaterIsWhole(q: char, front: string, back: string)
    requires Whole(q, front + back) && (back == [] || Even(q, front))
    ensures Whole(q, back) && (back != [] ==> Even(q, front + back) == Even(q, back))
  {
    EvenConcat(q, front, back);
    forall i | 0 <= i < |back| && back[i] == '.' ensures !Even(q, back[..i]) {
      var part := front + back;
      assert part[|front| + i] == '.' && part[..|front| + i] == front + back[..i];
      EvenConcat(q, front, back[..i]);
    }
  }

  // A name is split at the dots with an even number of quotes before them.
  lemma {:induction false} SplitsExactly(q: char, parts: seq<string>)
    requires q != '.' && Cut(q, parts)
    ensures SplitFrom(q, Join(parts), []) == Kept(parts)
  {
    var part := parts[0];
    if |parts| == 1 {
      PartSplits(q, part, [], []);
      assert part + [] == part && [] + part == part;
      assert Kept(parts[1..]) == [];
    } else {
      var rest := "." + Join(parts[1..]);
      PartSplits(q, part, rest, []);
      assert [] + part == part && rest[1..] == Join(parts[1..]);
      forall i | 0 <= i < |parts| - 1 ensures Whole(q, parts[1..][i]) {
        assert parts[1..][i] == parts[i + 1];
      }
      SplitsExactly(q, parts[1..]);
    }
  }

  // Every text can be cut so, so this says how each is split.
  lemma {:induction false} CanBeCut(q: char, s: string) returns (parts: seq<string>)
    ensures Cut(q, parts) && Join(parts) == s
    decreases |s|
  {
    var i := FirstCut(q, s, 0);
    if i == |s| {
      parts := [s];
    } else {
      var more := CanBeCut(q, s[i + 1..]);
      parts := [s[..i]] + more;
      assert parts[1..] == more;
      assert s == s[..i] + ("." + s[i + 1..]);
      forall j | 0 <= j < i && s[..i][j] == '.' ensures !Even(q, s[..i][..j]) {
        assert s[..i][..j] == s[..j];
      }
    }
  }

  lemma {:induction false} FirstCut(q: char, s: string, from: nat) returns (i: nat)
    requires from <= |s|
    ensures from <= i <= |s| && (i < |s| ==> s[i] == '.' && Even(q, s[..i]))
    ensures forall j :: from <= j < i && s[j] == '.' ==> !Even(q, s[..j])
    decreases |s| - from
  {
    if from == |s| || (s[from] == '.' && Even(q, s[..from])) {
      i := from;
    } else {
      i := FirstCut(q, s, from + 1);
    }
  }
}
