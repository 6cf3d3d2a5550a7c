// The string operations of Go's standard library that the text modules build on.
module Text {
  // strings.ReplaceAll with a one-character pattern.
  function Replace(s: string, c: char, with: string): string {
    if s == [] then []
    else if s[0] == c then with + Replace(s[1..], c, with)
    else [s[0]] + Replace(s[1..], c, with)
  }

  // Each character of s replaced by what f makes of it.
  function Mapped(f: char -> string, s: string): string {
    if s == [] then [] else f(s[0]) + Mapped(f, s[1..])
  }

  lemma Associates(a: string, b: string, c: string)
    ensures (a + b) + c == a + (b + c)
  {
  }

  lemma ReplaceFirst(s: string, c: char, with: string)
    requires s != []
    ensures Replace(s, c, with) == (if s[0] == c then with else [s[0]]) + Replace(s[1..], c, with)
  {
  }

  lemma {:induction false} ReplaceConcat(s: string, t: string, c: char, with: string)
    ensures Replace(s + t, c, with) == Replace(s, c, with) + Replace(t, c, with)
  {
    if s == [] {
      assert s + t == t;
    } else {
      var whole := s + t;
      assert whole[0] == s[0] && whole[1..] == s[1..] + t;
      ReplaceConcat(s[1..], t, c, with);
      ReplaceFirst(whole, c, with);
      ReplaceFirst(s, c, with);
      Associates(if s[0] == c then with else [s[0]], Replace(s[1..], c, with), Replace(t, c, with));
    }
  }

  // Replacing in what a per-character map produced is a per-character map.
  lemma {:induction false} ReplaceMapped(f: char -> string, s: string, c: char, with: string)
    ensures Replace(Mapped(f, s), c, with) == Mapped(x => Replace(f(x), c, with), s)
  {
    var g := (x: char) => Replace(f(x), c, with);
    if s != [] {
      ReplaceMapped(f, s[1..], c, with);
      ReplaceConcat(f(s[0]), Mapped(f, s[1..]), c, with);
      assert Mapped(g, s) == g(s[0]) + Mapped(g, s[1..]);
    }
  }

  lemma {:induction false} ReplaceIsMapped(s: string, c: char, with: string)
    ensures Replace(s, c, with) == Mapped(x => if x == c then with else [x], s)
  {
    var g := (x: char) => if x == c then with else [x];
    if s != [] {
      ReplaceIsMapped(s[1..], c, with);
      assert Mapped(g, s) == g(s[0]) + Mapped(g, s[1..]);
    }
  }

  lemma {:induction false} MappedSame(f: char -> string, g: char -> string, s: string)
    requires forall x :: f(x) == g(x)
    ensures Mapped(f, s) == Mapped(g, s)
  {
    if s != [] {
      MappedSame(f, g, s[1..]);
    }
  }

  lemma ReplaceChar(x: char, c: char, with: string)
    ensures Replace([x], c, with) == if x == c then with else [x]
  {
    assert [x][1..] == [];
    assert Replace([x], c, with) == (if x == c then with else [x]) + Replace([x][1..], c, with);
  }

  lemma PrefixSteps(p: string, s: string)
    requires p != [] && s != []
    ensures p <= s <==> p[0] == s[0] && p[1..] <= s[1..]
  {
    if p[0] == s[0] && p[1..] <= s[1..] {
      assert p == [p[0]] + p[1..] && s == [s[0]] + s[1..];
      assert s[..|p|] == [s[0]] + s[1..][..|p| - 1];
    }
  }

  // ---- White space ----

  const SPACES := " \t\n\r\U{0B}\U{0C}"

  predicate IsSpace(c: char) {
    c in SPACES
  }

  function SkipSpace(s: string): string {
    if s != [] && IsSpace(s[0]) then SkipSpace(s[1..]) else s
  }

  lemma {:induction false} SkipShorter(s: string)
    ensures |SkipSpace(s)| <= |s|
    ensures SkipSpace(s) != [] ==> !IsSpace(SkipSpace(s)[0])
  {
    if s != [] && IsSpace(s[0]) { SkipShorter(s[1..]); }
  }

  function TrimRight(s: string): string {
    if s != [] && IsSpace(s[|s| - 1]) then TrimRight(s[..|s| - 1]) else s
  }

  function TrimSpace(s: string): string {
    TrimRight(SkipSpace(s))
  }

  predicate Trimmed(s: string) {
    s == [] || (!IsSpace(s[0]) && !IsSpace(s[|s| - 1]))
  }

  lemma {:induction false} TrimRightShape(s: string)
    ensures TrimRight(s) <= s
    ensures TrimRight(s) == [] || !IsSpace(TrimRight(s)[|TrimRight(s)| - 1])
  {
    if s != [] && IsSpace(s[|s| - 1]) {
      TrimRightShape(s[..|s| - 1]);
    }
  }

  lemma TrimTrims(s: string)
    ensures Trimmed(TrimSpace(s))
    ensures Trimmed(s) ==> TrimSpace(s) == s
  {
    SkipShorter(s);
    TrimRightShape(SkipSpace(s));
  }
}
