// Every way to write a connection URL, and that the parser reads exactly those.
module UrlSpellings {
  import opened Collections
  import opened Text
  import opened DsnTokens
  import opened DsnUrl
  import opened DsnSpellings
  import opened Dsn

  datatype Login = Nobody | User(user: string) | UserPassword(user: string, password: string)

  datatype UrlText = UrlText(scheme: string, login: Login, hostport: string, tail: string)

  function LoginText(who: Login): string {
    match who
    case Nobody => ""
    case User(user) => user + "@"
    case UserPassword(user, password) => user + ":" + password + "@"
  }

  function TextOfUrl(w: UrlText): string {
    w.scheme + "://" + LoginText(w.login) + w.hostport + w.tail
  }

  // "://" stands at position i.
  predicate SchemeEndsAt(s: string, i: int) {
    0 <= i && i + 3 <= |s| && s[i] == ':' && s[i + 1] == '/' && s[i + 2] == '/'
  }

  // No character of s ends an authority.
  predicate Within(s: string) {
    '/' !in s && '?' !in s && '#' !in s
  }

  // The scheme does not end before it is over.
  predicate FirstScheme(scheme: string) {
    forall i :: 0 <= i < |scheme| ==> !SchemeEndsAt(scheme + "://", i)
  }

  predicate LegibleLogin(who: Login) {
    match who
    case Nobody => true
    case User(user) => ':' !in user && Within(user)
    case UserPassword(user, password) => ':' !in user && Within(user) && Within(password)
  }

  // Nothing in the text of a URL is mistaken for the end of what it is in.
  predicate LegibleUrl(w: UrlText) {
    && FirstScheme(w.scheme) && LegibleLogin(w.login)
    && '@' !in w.hostport && Within(w.hostport)
    && (w.tail == "" || w.tail[0] == '/' || w.tail[0] == '?' || w.tail[0] == '#')
    && !White(TextOfUrl(w)[0]) && !White(TextOfUrl(w)[|TextOfUrl(w)| - 1])
  }

  function PartsOfUrl(w: UrlText): UrlDsn {
    var prefix := w.scheme + "://";
    match w.login
    case Nobody => UrlDsn(prefix, "", "", false, false, w.hostport, w.tail)
    case User(user) => UrlDsn(prefix, user, "", true, false, w.hostport, w.tail)
    case UserPassword(user, password) => UrlDsn(prefix, user, password, true, true, w.hostport, w.tail)
  }

  // ---- White space around a text ----

  lemma {:induction false} TrimsBlankEnd(s: string, b: string)
    requires Blank(b) && (s == "" || !White(s[|s| - 1]))
    ensures TrimRight(s + b) == s
  {
    var t := s + b;
    if b != [] {
      WhiteIsSpace(b[|b| - 1]);
      assert t[..|t| - 1] == s + b[..|b| - 1];
      TrimsBlankEnd(s, b[..|b| - 1]);
    } else {
      assert t == s;
      if s != "" { WhiteIsSpace(s[|s| - 1]); }
    }
  }

  lemma TrimsBlanks(lead: string, s: string, trail: string)
    requires Blank(lead) && Blank(trail) && s != "" && !White(s[0]) && !White(s[|s| - 1])
    ensures TrimSpace(lead + (s + trail)) == s
  {
    SkipsBlank(lead, s + trail);
    TrimsBlankEnd(s, trail);
  }

  // ---- What is written is read ----

  lemma {:induction false} SchemeIsFirst(s: string, n: nat)
    requires SchemeEndsAt(s, n) && forall i :: 0 <= i < n ==> !SchemeEndsAt(s, i)
    ensures FindScheme(s) == Some(n)
  {
    assert s[..3] == [s[0], s[1], s[2]];
    assert (s[..3] == SCHEME) == SchemeEndsAt(s, 0);
    if n > 0 {
      forall i | 0 <= i < n - 1 ensures !SchemeEndsAt(s[1..], i) {
        assert !SchemeEndsAt(s, i + 1);
      }
      SchemeIsFirst(s[1..], n - 1);
    }
  }

  lemma {:induction false} NoScheme(s: string)
    ensures FindScheme(s).None? <==> forall i :: !SchemeEndsAt(s, i)
  {
    if |s| >= 3 {
      assert s[..3] == [s[0], s[1], s[2]];
      assert (s[..3] == SCHEME) == SchemeEndsAt(s, 0);
      NoScheme(s[1..]);
      forall i ensures i != 0 ==> SchemeEndsAt(s, i) == SchemeEndsAt(s[1..], i - 1) {
      }
      if i :| SchemeEndsAt(s[1..], i) {
        assert SchemeEndsAt(s, i + 1);
      }
    }
  }

  lemma WithinIsFree(s: string)
    ensures Within(s) <==> NoDelimiter(s)
  {
    assert Delimits('/') && Delimits('?') && Delimits('#');
  }

  lemma PartsMakeText(w: UrlText)
    ensures Rebuild(PartsOfUrl(w)) == TextOfUrl(w)
  {
    var u := PartsOfUrl(w);
    assert Authority(u) == LoginText(w.login) + w.hostport;
  }

  lemma PartsAreWellFormed(w: UrlText)
    requires LegibleUrl(w)
    ensures WellFormed(PartsOfUrl(w))
  {
    var t := TextOfUrl(w);
    PartsMakeText(w);
    SchemeIsWhole(w.scheme);
    WhiteIsSpace(t[0]);
    WhiteIsSpace(t[|t| - 1]);
    LoginIsFree(w);
    WithinIsFree(w.hostport);
  }

  lemma SchemeIsWhole(scheme: string)
    requires FirstScheme(scheme)
    ensures FindScheme(scheme + "://") == Some(|scheme|)
  {
    assert SchemeEndsAt(scheme + "://", |scheme|);
    SchemeIsFirst(scheme + "://", |scheme|);
  }

  lemma LoginIsFree(w: UrlText)
    requires LegibleLogin(w.login)
    ensures var u := PartsOfUrl(w); NoDelimiter(u.user) && NoDelimiter(u.pass) && ':' !in u.user
  {
    WithinIsFree(PartsOfUrl(w).user);
    WithinIsFree(PartsOfUrl(w).pass);
  }

  lemma SameTrim(s: string, t: string)
    requires TrimSpace(s) == TrimSpace(t)
    ensures ParseUrl(s) == ParseUrl(t)
  {
  }

  // A URL written so is read as its parts, whatever white space is around it.
  lemma UrlsRead(w: UrlText, lead: string, trail: string)
    requires LegibleUrl(w) && Blank(lead) && Blank(trail)
    ensures ParseUrl(lead + (TextOfUrl(w) + trail)) == Some(PartsOfUrl(w))
  {
    var t := TextOfUrl(w);
    TrimsBlanks(lead, t, trail);
    PartsAreWellFormed(w);
    PartsMakeText(w);
    RebuiltParses(PartsOfUrl(w));
    TrimTrims(t);
    SameTrim(lead + (t + trail), t);
  }

  // ---- What is read is written so ----

  lemma {:induction false} BlankEnd(s: string) returns (trail: string)
    ensures Blank(trail) && s == TrimRight(s) + trail
  {
    if s != [] && IsSpace(s[|s| - 1]) {
      WhiteIsSpace(s[|s| - 1]);
      var front := s[..|s| - 1];
      var more := BlankEnd(front);
      trail := more + [s[|s| - 1]];
      Associates(TrimRight(front), more, [s[|s| - 1]]);
      assert s == front + [s[|s| - 1]];
    } else {
      trail := "";
    }
  }

  lemma BlanksAround(s: string) returns (lead: string, trail: string)
    ensures Blank(lead) && Blank(trail) && s == lead + (TrimSpace(s) + trail)
  {
    lead := BlankSkipped(s);
    trail := BlankEnd(SkipSpace(s));
  }

  lemma {:induction false} FoundIsFirst(s: string)
    requires FindScheme(s).Some?
    ensures SchemeEndsAt(s, FindScheme(s).value)
    ensures forall i :: 0 <= i < FindScheme(s).value ==> !SchemeEndsAt(s, i)
  {
    assert s[..3] == [s[0], s[1], s[2]];
    if s[..3] != SCHEME {
      FoundIsFirst(s[1..]);
      forall i | 0 < i < FindScheme(s).value ensures !SchemeEndsAt(s, i) {
        assert !SchemeEndsAt(s[1..], i - 1);
      }
    }
  }

  lemma EndsInScheme(s: string, n: nat)
    requires SchemeEndsAt(s, n) && |s| == n + 3
    ensures s == s[..n] + "://"
  {
    assert s[n..] == [s[n], s[n + 1], s[n + 2]];
    assert s == s[..n] + s[n..];
  }

  function SpelledParts(u: UrlDsn): UrlText
    requires |u.prefix| >= 3
  {
    var login := if !u.hasUser then Nobody else if u.hasPass then UserPassword(u.user, u.pass) else User(u.user);
    UrlText(u.prefix[..|u.prefix| - 3], login, u.hostport, u.tail)
  }

  lemma SpelledPartsBack(u: UrlDsn)
    requires WellFormed(u)
    ensures PartsOfUrl(SpelledParts(u)) == u && TextOfUrl(SpelledParts(u)) == Rebuild(u)
  {
    FoundIsFirst(u.prefix);
    EndsInScheme(u.prefix, |u.prefix| - 3);
    PartsMakeText(SpelledParts(u));
  }

  lemma PartsAreSpelled(u: UrlDsn)
    requires WellFormed(u)
    ensures LegibleUrl(SpelledParts(u))
  {
    var t := TextOfUrl(SpelledParts(u));
    SpelledPartsBack(u);
    SchemeIsSpelled(u);
    LoginIsSpelled(u);
    WithinIsFree(u.hostport);
    WhiteIsSpace(t[0]);
    WhiteIsSpace(t[|t| - 1]);
  }

  lemma SchemeIsSpelled(u: UrlDsn)
    requires WellFormed(u)
    ensures FirstScheme(SpelledParts(u).scheme)
  {
    FoundIsFirst(u.prefix);
    EndsInScheme(u.prefix, |u.prefix| - 3);
  }

  lemma LoginIsSpelled(u: UrlDsn)
    requires WellFormed(u)
    ensures LegibleLogin(SpelledParts(u).login)
  {
    WithinIsFree(u.user);
    WithinIsFree(u.pass);
  }

  // A text without "://" is no URL.
  lemma NoSchemeIsRefused(dsn: string)
    ensures ParseUrl(dsn).None? <==> forall i :: !SchemeEndsAt(TrimSpace(dsn), i)
  {
    NoScheme(TrimSpace(dsn));
  }

  ghost predicate ReadsAs(dsn: string, w: UrlText, u: UrlDsn) {
    LegibleUrl(w) && PartsOfUrl(w) == u &&
    exists lead, trail :: Blank(lead) && Blank(trail) && dsn == lead + (TextOfUrl(w) + trail)
  }

  // A text is taken apart into these parts exactly when it can be written from them.
  lemma AcceptsExactlyUrls(dsn: string, u: UrlDsn)
    ensures ParseUrl(dsn) == Some(u) <==> exists w :: ReadsAs(dsn, w, u)
  {
    if ParseUrl(dsn) == Some(u) {
      ParsedRebuilds(dsn);
      PartsAreSpelled(u);
      SpelledPartsBack(u);
      var lead, trail := BlanksAround(dsn);
      assert ReadsAs(dsn, SpelledParts(u), u);
    }
    if w :| ReadsAs(dsn, w, u) {
      var lead, trail :| Blank(lead) && Blank(trail) && dsn == lead + (TextOfUrl(w) + trail);
      UrlsRead(w, lead, trail);
    }
  }

  // A connection string is a URL exactly when, white space aside, it starts as one.
  lemma UrlFormExactly(t: string, lead: string, trail: string)
    requires Blank(lead) && Blank(trail) && t != "" && !White(t[0]) && !White(t[|t| - 1])
    ensures IsUrl(lead + (t + trail)) <==> "postgres://" <= t || "postgresql://" <= t
  {
    TrimsBlanks(lead, t, trail);
  }

  // The password of a URL is what stands between the first colon and the last
  // '@' of its authority; setting or removing it rewrites nothing else.
  lemma UrlPasswords(w: UrlText, lead: string, trail: string, password: string)
    requires LegibleUrl(w) && Blank(lead) && Blank(trail)
    requires "postgres://" <= TextOfUrl(w) || "postgresql://" <= TextOfUrl(w)
    ensures var dsn := lead + (TextOfUrl(w) + trail);
            match w.login
            case UserPassword(user, was) =>
              && DSNPassword(dsn) == was
              && DSNWithPassword(dsn, password) == TextOfUrl(w.(login := UserPassword(user, password)))
              && DSNWithoutPassword(dsn) == TextOfUrl(w.(login := User(user)))
            case _ =>
              DSNPassword(dsn) == "" && DSNWithPassword(dsn, password) == dsn && DSNWithoutPassword(dsn) == dsn
  {
    UrlFormExactly(TextOfUrl(w), lead, trail);
    UrlsRead(w, lead, trail);
    if w.login.UserPassword? {
      PartsMakeText(w.(login := UserPassword(w.login.user, password)));
      PartsMakeText(w.(login := User(w.login.user)));
    }
  }

  lemma JoinedAs(host: string, port: string)
    ensures JoinHostPort(host, port) == if ':' in host then "[" + host + "]:" + port else host + ":" + port
  {
    if ':' in host {
      assert "]:" + port == "]" + (":" + port);
      Associates("[", host, "]:" + port);
      Associates("[" + host, "]:", port);
    }
  }

  // Pointing a URL elsewhere replaces the host and port alone, an address with
  // colons in brackets.
  lemma UrlHosts(w: UrlText, lead: string, trail: string, host: string, port: string)
    requires LegibleUrl(w) && Blank(lead) && Blank(trail)
    requires "postgres://" <= TextOfUrl(w) || "postgresql://" <= TextOfUrl(w)
    ensures DSNWithHost(lead + (TextOfUrl(w) + trail), host, port) ==
            Some(TextOfUrl(w.(hostport := if ':' in host then "[" + host + "]:" + port else host + ":" + port)))
  {
    UrlFormExactly(TextOfUrl(w), lead, trail);
    UrlsRead(w, lead, trail);
    PartsMakeText(w.(hostport := JoinHostPort(host, port)));
    JoinedAs(host, port);
  }
}
