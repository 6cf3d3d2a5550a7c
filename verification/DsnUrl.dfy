// postgres:// connection strings, split into their parts and put back together.
module DsnUrl {
  import opened Collections
  import opened Text
  import opened DsnTokens

  datatype UrlDsn = UrlDsn(
    prefix: string,  // up to and including "://"
    user: string,
    pass: string,
    hasUser: bool,
    hasPass: bool,
    hostport: string,
    tail: string)    // path, query and fragment, or empty

  // ---- strings.Index, IndexByte and LastIndex ----

  const SCHEME := "://"

  function FindScheme(s: string): Option<nat> {
    if |s| < 3 then None
    else if s[..3] == SCHEME then Some(0)
    else match FindScheme(s[1..]) case None => None case Some(i) => Some(i + 1)
  }

  // Where the first character satisfying p is, or the length when none does.
  function First(p: char -> bool, s: string): (i: nat)
    ensures i <= |s|
    ensures i < |s| ==> p(s[i])
  {
    if s == [] || p(s[0]) then 0 else 1 + First(p, s[1..])
  }

  function Is(c: char): char -> bool {
    x => x == c
  }

  function Last(c: char, s: string): Option<nat> {
    if s == [] then None
    else match Last(c, s[1..])
         case Some(i) => Some(i + 1)
         case None => if s[0] == c then Some(0) else None
  }

  lemma {:induction false} FirstSplits(p: char -> bool, a: string, b: string)
    requires (forall c :: c in a ==> !p(c)) && (b == [] || p(b[0]))
    ensures First(p, a + b) == |a|
  {
    if a == [] {
      assert a + b == b;
    } else {
      assert a[0] in a && forall c :: c in a[1..] ==> c in a;
      FirstSplits(p, a[1..], b);
      assert (a + b)[1..] == a[1..] + b;
    }
  }

  lemma {:induction false} FirstMeaning(p: char -> bool, s: string)
    ensures forall i :: 0 <= i < First(p, s) ==> !p(s[i])
  {
    if s != [] && !p(s[0]) {
      FirstMeaning(p, s[1..]);
      assert forall i :: 0 < i < |s| ==> s[i] == s[1..][i - 1];
    }
  }

  lemma {:induction false} LastNone(c: char, s: string)
    ensures Last(c, s).None? <==> c !in s
    ensures Last(c, s).Some? ==> Last(c, s).value < |s| && s[Last(c, s).value] == c && c !in s[Last(c, s).value + 1..]
  {
    if s != [] {
      LastNone(c, s[1..]);
      assert s == [s[0]] + s[1..];
      if Last(c, s[1..]).Some? {
        var i := Last(c, s[1..]).value;
        assert s[i + 1 + 1..] == s[1..][i + 1..];
      }
    }
  }

  lemma {:induction false} LastSplits(c: char, a: string, b: string)
    requires c !in b
    ensures Last(c, a + ([c] + b)) == Some(|a|)
  {
    LastNone(c, b);
    if a == [] {
      assert a + ([c] + b) == [c] + b && ([c] + b)[1..] == b;
    } else {
      LastSplits(c, a[1..], b);
      assert (a + ([c] + b))[1..] == a[1..] + ([c] + b);
    }
  }

  lemma {:induction false} SchemeStays(prefix: string, rest: string)
    requires |prefix| >= 3 && FindScheme(prefix) == Some(|prefix| - 3)
    ensures FindScheme(prefix + rest) == Some(|prefix| - 3)
  {
    var s := prefix + rest;
    assert s[..3] == prefix[..3];
    if prefix[..3] != SCHEME {
      SchemeStays(prefix[1..], rest);
      assert s[1..] == prefix[1..] + rest;
    }
  }

  lemma {:induction false} SchemeMeaning(s: string)
    requires FindScheme(s).Some?
    ensures var i := FindScheme(s).value; i + 3 <= |s| && FindScheme(s[..i + 3]) == Some(i)
  {
    if s[..3] != SCHEME {
      SchemeMeaning(s[1..]);
      var i := FindScheme(s[1..]).value;
      assert s[..i + 4][..3] == s[..3] && s[..i + 4][1..] == s[1..][..i + 3];
    } else {
      assert s[..3][..3] == SCHEME;
    }
  }

  // ---- Taking a URL apart ----

  predicate Delimits(c: char) {
    c == '/' || c == '?' || c == '#'
  }

  function SplitAuthority(prefix: string, authority: string, tail: string): UrlDsn {
    match Last('@', authority)
    case None => UrlDsn(prefix, "", "", false, false, authority, tail)
    case Some(at) =>
      LastNone('@', authority);
      var userinfo, hostport := authority[..at], authority[at + 1..];
      var colon := First(Is(':'), userinfo);
      if colon < |userinfo| then
        UrlDsn(prefix, userinfo[..colon], userinfo[colon + 1..], true, true, hostport, tail)
      else UrlDsn(prefix, userinfo, "", true, false, hostport, tail)
  }

  // The parts of a URL whose scheme ends at n.
  function SplitAfter(t: string, n: nat): UrlDsn
    requires n <= |t|
  {
    var end := n + First(Delimits, t[n..]);
    SplitAuthority(t[..n], t[n..end], t[end..])
  }

  function ParseUrl(dsn: string): Option<UrlDsn> {
    var t := TrimSpace(dsn);
    match FindScheme(t)
    case None => None
    case Some(si) =>
      SchemeMeaning(t);
      Some(SplitAfter(t, si + 3))
  }

  function UserInfo(u: UrlDsn): string {
    u.user + (if u.hasPass then ":" + u.pass else "")
  }

  function Authority(u: UrlDsn): string {
    if u.hasUser then UserInfo(u) + ("@" + u.hostport) else u.hostport
  }

  function Rebuild(u: UrlDsn): string {
    u.prefix + (Authority(u) + u.tail)
  }

  method ParseURLDSN(dsn: string) returns (u: Option<UrlDsn>)
    ensures u == ParseUrl(dsn)
  {
    var t := TrimSpace(dsn);
    var si := FindScheme(t);
    if si.None? {
      return None;
    }
    SchemeMeaning(t);
    var authStart := si.value + 3;
    var authEnd := AuthorityEnd(t, authStart);
    var parts := SplitAuthority(t[..authStart], t[authStart..authEnd], t[authEnd..]);
    SplitAtEnd(t, authStart, authEnd, parts);
    u := Some(parts);
  }

  lemma SplitAtEnd(t: string, n: nat, end: nat, parts: UrlDsn)
    requires n <= |t| && end == n + First(Delimits, t[n..])
    requires parts == SplitAuthority(t[..n], t[n..end], t[end..])
    ensures SplitAfter(t, n) == parts
  {
  }

  method AuthorityEnd(t: string, authStart: nat) returns (authEnd: nat)
    requires authStart <= |t|
    ensures authEnd == authStart + First(Delimits, t[authStart..])
  {
    var i := authStart;
    while i < |t|
      invariant authStart <= i <= |t|
      invariant authStart + First(Delimits, t[authStart..]) == i + First(Delimits, t[i..])
    {
      assert t[i..][1..] == t[i + 1..];
      if Delimits(t[i]) {
        return i;
      }
      i := i + 1;
    }
    authEnd := |t|;
  }

  method RebuildURL(u: UrlDsn) returns (b: string)
    ensures b == Rebuild(u)
  {
    b := u.prefix;
    if u.hasUser {
      b := b + u.user;
      if u.hasPass {
        b := b + ":" + u.pass;
      }
      b := b + "@";
    }
    b := b + u.hostport;
    b := b + u.tail;
    assert b == u.prefix + (Authority(u) + u.tail);
  }

  predicate NoDelimiter(s: string) {
    forall c :: c in s ==> !Delimits(c)
  }

  // The parts of u are where a parse would look for them.
  predicate WellFormed(u: UrlDsn) {
    && |u.prefix| >= 3 && FindScheme(u.prefix) == Some(|u.prefix| - 3)
    && NoDelimiter(u.user) && NoDelimiter(u.pass) && NoDelimiter(u.hostport)
    && '@' !in u.hostport && ':' !in u.user
    && (u.hasPass ==> u.hasUser)
    && (!u.hasPass ==> u.pass == "") && (!u.hasUser ==> u.user == "")
    && (u.tail == "" || Delimits(u.tail[0]))
    && Trimmed(Rebuild(u))
  }

  lemma AuthoritySplits(u: UrlDsn)
    requires WellFormed(u)
    ensures SplitAuthority(u.prefix, Authority(u), u.tail) == u
  {
    if u.hasUser {
      var info := UserInfo(u);
      LastSplits('@', info, u.hostport);
      var authority := info + ("@" + u.hostport);
      assert authority[..|info|] == info && authority[|info| + 1..] == u.hostport;
      if u.hasPass {
        FirstSplits(Is(':'), u.user, ":" + u.pass);
        assert info[..|u.user|] == u.user && info[|u.user| + 1..] == u.pass;
      } else {
        FirstSplits(Is(':'), u.user, []);
        assert info == u.user + [];
      }
    } else {
      LastNone('@', u.hostport);
    }
  }

  lemma AuthorityUndelimited(u: UrlDsn)
    requires WellFormed(u)
    ensures NoDelimiter(Authority(u))
  {
    forall c | c in Authority(u) ensures !Delimits(c) {
      assert c in u.hostport || c in u.user || c in u.pass || c == '@' || c == ':';
    }
  }

  // Where the three parts of a text put together are.
  lemma PartsOf(a: string, b: string, c: string)
    ensures var t := a + (b + c); t[..|a|] == a && t[|a|..] == b + c && t[|a|..|a| + |b|] == b && t[|a| + |b|..] == c
  {
    var t, rest := a + (b + c), b + c;
    assert t[|a|..] == rest;
    assert t[|a|..|a| + |b|] == rest[..|b|] && t[|a| + |b|..] == rest[|b|..];
  }

  // What was put together from well-formed parts comes apart into the same parts.
  lemma RebuiltParses(u: UrlDsn)
    requires WellFormed(u)
    ensures ParseUrl(Rebuild(u)) == Some(u)
  {
    TrimTrims(Rebuild(u));
    SchemeStays(u.prefix, Authority(u) + u.tail);
    RebuiltSplits(u);
    assert FindScheme(Rebuild(u)).value + 3 == |u.prefix|;
  }

  lemma RebuiltSplits(u: UrlDsn)
    requires WellFormed(u)
    ensures |u.prefix| <= |Rebuild(u)| && SplitAfter(Rebuild(u), |u.prefix|) == u
  {
    AuthorityUndelimited(u);
    FirstSplits(Delimits, Authority(u), u.tail);
    PartsOf(u.prefix, Authority(u), u.tail);
    AuthoritySplits(u);
  }

  // The user information of the parts, as they are split.
  function InfoOf(info: string): string {
    var colon := First(Is(':'), info);
    if colon < |info| then info[..colon] + (":" + info[colon + 1..]) else info + ""
  }

  lemma InfoJoins(info: string)
    ensures InfoOf(info) == info
  {
    InfoParts(info, First(Is(':'), info));
  }

  // An authority is what its parts make.
  lemma SplitJoins(prefix: string, authority: string, tail: string)
    ensures Authority(SplitAuthority(prefix, authority, tail)) == authority
  {
    LastNone('@', authority);
    if Last('@', authority).Some? {
      var at := Last('@', authority).value;
      InfoJoins(authority[..at]);
      CharApart(authority, at);
      SplitKeepsInfo(prefix, authority, tail, at);
    }
  }

  lemma SplitKeepsInfo(prefix: string, authority: string, tail: string, at: nat)
    requires Last('@', authority) == Some(at) && at < |authority|
    ensures var u := SplitAuthority(prefix, authority, tail);
            u.hasUser && UserInfo(u) == InfoOf(authority[..at]) && u.hostport == authority[at + 1..]
  {
  }

  lemma SplitShape(prefix: string, authority: string, tail: string)
    requires NoDelimiter(authority)
    ensures var u := SplitAuthority(prefix, authority, tail);
            && u.prefix == prefix && u.tail == tail
            && NoDelimiter(u.user) && NoDelimiter(u.pass) && NoDelimiter(u.hostport)
            && '@' !in u.hostport && ':' !in u.user && (u.hasPass ==> u.hasUser)
            && (!u.hasPass ==> u.pass == "") && (!u.hasUser ==> u.user == "")
  {
    LastNone('@', authority);
    if Last('@', authority).Some? {
      var at := Last('@', authority).value;
      var userinfo := authority[..at];
      var colon := First(Is(':'), userinfo);
      FreeParts(authority, at);
      FreeParts(authority, at + 1);
      FreeParts(userinfo, colon);
      InfoParts(userinfo, colon);
      if colon < |userinfo| { FreeParts(userinfo, colon + 1); }
    }
  }

  lemma FreeParts(s: string, i: nat)
    requires NoDelimiter(s) && i <= |s|
    ensures NoDelimiter(s[..i]) && NoDelimiter(s[i..])
  {
    assert forall c :: c in s[..i] ==> c in s;
    assert forall c :: c in s[i..] ==> c in s;
  }

  lemma CharApart(s: string, i: nat)
    requires i < |s|
    ensures s == s[..i] + ([s[i]] + s[i + 1..])
  {
    assert s[i..] == [s[i]] + s[i + 1..];
    assert s == s[..i] + s[i..];
  }

  // A user, and after the first colon, if there is one, a password.
  lemma InfoParts(info: string, colon: nat)
    requires colon == First(Is(':'), info)
    ensures colon <= |info| && ':' !in info[..colon] && (colon == |info| ==> info[..colon] == info)
    ensures colon < |info| ==> info == info[..colon] + (":" + info[colon + 1..])
  {
    FirstMeaning(Is(':'), info);
    if colon < |info| {
      CharApart(info, colon);
    }
  }

  // A ':' before an '@', with something between.
  predicate HoldsPassword(authority: string) {
    exists i, j :: 0 <= i && i + 1 < j < |authority| && authority[i] == ':' && authority[j] == '@'
  }

  // An authority gives a password exactly when it holds one.
  lemma SplitPassword(prefix: string, authority: string, tail: string)
    ensures SplitAuthority(prefix, authority, tail).pass != "" <==> HoldsPassword(authority)
  {
    LastNone('@', authority);
    if Last('@', authority).Some? {
      var at := Last('@', authority).value;
      var userinfo := authority[..at];
      FirstMeaning(Is(':'), userinfo);
      var colon := First(Is(':'), userinfo);
      if colon + 1 < at {
        assert authority[colon] == userinfo[colon] && authority[at] == '@';
      }
      assert forall j :: at < j < |authority| ==> authority[j] == authority[at + 1..][j - at - 1];
      if i, j :| 0 <= i && i + 1 < j < |authority| && authority[i] == ':' && authority[j] == '@' {
        assert userinfo[i] == ':';
      }
    }
  }

  // The part of a URL between its scheme and the first '/', '?' or '#'.
  function AuthorityOf(dsn: string): string {
    var t := TrimSpace(dsn);
    match FindScheme(t)
    case None => ""
    case Some(i) =>
      SchemeMeaning(t);
      Undelimited(t[i + 3..])
  }

  function Undelimited(s: string): string {
    s[..First(Delimits, s)]
  }

  lemma SplitAfterPassword(t: string, n: nat)
    requires n <= |t|
    ensures SplitAfter(t, n).pass != "" <==> HoldsPassword(Undelimited(t[n..]))
  {
    var rest := t[n..];
    var end := n + First(Delimits, rest);
    assert t[n..end] == rest[..end - n];
    SplitPassword(t[..n], t[n..end], t[end..]);
  }

  lemma UrlHoldsPassword(dsn: string)
    requires ParseUrl(dsn).Some?
    ensures ParseUrl(dsn).value.pass != "" <==> HoldsPassword(AuthorityOf(dsn))
  {
    var t := TrimSpace(dsn);
    SchemeMeaning(t);
    SplitAfterPassword(t, FindScheme(t).value + 3);
  }

  lemma AuthorityFree(rest: string)
    ensures var end := First(Delimits, rest);
            NoDelimiter(rest[..end]) && (rest[end..] == "" || Delimits(rest[end..][0]))
    ensures rest[..First(Delimits, rest)] + rest[First(Delimits, rest)..] == rest
  {
    FirstMeaning(Delimits, rest);
    UndelimitedFree(rest, First(Delimits, rest));
  }

  lemma UndelimitedFree(s: string, end: nat)
    requires end <= |s| && forall i :: 0 <= i < end ==> !Delimits(s[i])
    ensures NoDelimiter(s[..end])
  {
    forall c | c in s[..end] ensures !Delimits(c) {
      var i :| 0 <= i < end && s[..end][i] == c;
    }
  }

  // The parts after the scheme, read from what follows it.
  function SplitRest(prefix: string, rest: string): UrlDsn {
    var end := First(Delimits, rest);
    SplitAuthority(prefix, rest[..end], rest[end..])
  }

  lemma SplitAfterIs(t: string, n: nat)
    requires n <= |t|
    ensures SplitAfter(t, n) == SplitRest(t[..n], t[n..])
  {
    var rest := t[n..];
    var end := First(Delimits, rest);
    assert t[n..n + end] == rest[..end] && t[n + end..] == rest[end..];
  }

  lemma SplitRestShape(t: string, prefix: string, rest: string)
    requires |prefix| >= 3 && FindScheme(prefix) == Some(|prefix| - 3) && t == prefix + rest && Trimmed(t)
    ensures WellFormed(SplitRest(prefix, rest)) && Rebuild(SplitRest(prefix, rest)) == t
  {
    var end := First(Delimits, rest);
    AuthorityFree(rest);
    PartsAreShaped(t, prefix, rest[..end], rest[end..]);
  }

  lemma PartsAreShaped(t: string, prefix: string, authority: string, tail: string)
    requires |prefix| >= 3 && FindScheme(prefix) == Some(|prefix| - 3)
    requires NoDelimiter(authority) && (tail == "" || Delimits(tail[0]))
    requires t == prefix + (authority + tail) && Trimmed(t)
    ensures var u := SplitAuthority(prefix, authority, tail); WellFormed(u) && Rebuild(u) == t
  {
    SplitShape(prefix, authority, tail);
    SplitJoins(prefix, authority, tail);
  }

  // What parses has well-formed parts, and putting them back gives the text up
  // to the space around it.
  lemma ParsedRebuilds(dsn: string)
    ensures ParseUrl(dsn).Some? ==> WellFormed(ParseUrl(dsn).value) && Rebuild(ParseUrl(dsn).value) == TrimSpace(dsn)
  {
    var t := TrimSpace(dsn);
    TrimTrims(dsn);
    if FindScheme(t).Some? {
      SchemeMeaning(t);
      var n := FindScheme(t).value + 3;
      var prefix, rest := t[..n], t[n..];
      assert t == prefix + rest;
      SplitAfterIs(t, n);
      SplitRestShape(t, prefix, rest);
    }
  }

  // ---- Host and port ----

  function JoinHostPort(host: string, port: string): string {
    if ':' in host then "[" + (host + ("]" + (":" + port))) else host + (":" + port)
  }

  function HostPort(u: UrlDsn): (string, string) {
    var hp := u.hostport;
    var end := First(Is(']'), hp);
    if hp != [] && hp[0] == '[' && end < |hp| then
      var host, rest := hp[1..end], hp[end + 1..];
      if rest != [] && rest[0] == ':' then (host, rest[1..]) else (host, "")
    else
      LastNone(':', hp);
      match Last(':', hp)
      case Some(c) => (hp[..c], hp[c + 1..])
      case None => (hp, "")
  }

  predicate Bracketed(hp: string) {
    hp != [] && hp[0] == '[' && ']' in hp
  }

  // A bracketed address, with what follows the bracket.
  lemma BracketedHostPort(u: UrlDsn, h: string, rest: string)
    requires u.hostport == "[" + h + "]" + rest && ']' !in h
    ensures HostPort(u) == (h, if rest != [] && rest[0] == ':' then rest[1..] else "")
  {
    var hp, opening, closing := u.hostport, "[" + h, "]" + rest;
    assert hp == opening + closing;
    FirstSplits(Is(']'), opening, closing);
    assert hp[1..|h| + 1] == opening[1..] == h;
    assert hp[|h| + 2..] == closing[1..] == rest;
  }

  // A host port without brackets is split at its last colon, if it has one.
  lemma PlainHostPort(u: UrlDsn, h: string, port: string)
    requires !Bracketed(u.hostport) && ':' !in port
    ensures u.hostport == h + ":" + port ==> HostPort(u) == (h, port)
    ensures ':' !in u.hostport ==> HostPort(u) == (u.hostport, "")
  {
    var hp := u.hostport;
    FirstNone(']', hp);
    LastNone(':', hp);
    if hp == h + ":" + port {
      assert hp == h + ([':'] + port);
      LastSplits(':', h, port);
      assert hp[..|h|] == h && hp[|h| + 1..] == port;
    }
  }

  lemma FirstNone(c: char, s: string)
    ensures c !in s <==> First(Is(c), s) == |s|
  {
    FirstMeaning(Is(c), s);
  }

  // Bracketing cannot be mistaken: an address with colons holds no bracket, and
  // a name without them does not look bracketed already.
  predicate Bracketable(host: string) {
    if ':' in host then ']' !in host else host == [] || host[0] != '[' || ']' !in host
  }

  lemma JoinReads(u: UrlDsn, host: string, port: string)
    requires ':' !in port && ']' !in port && u.hostport == JoinHostPort(host, port)
    ensures HostPort(u) == (host, port) <==> Bracketable(host)
  {
    if ':' in host {
      BracketedReads(u, host, port);
    } else {
      PlainHostReads(u, host, port);
    }
  }

  lemma BracketedReads(u: UrlDsn, host: string, port: string)
    requires ':' in host && ']' !in port && u.hostport == JoinHostPort(host, port)
    ensures HostPort(u) == (host, port) <==> ']' !in host
  {
    var hp, closing := u.hostport, "]" + (":" + port);
    Associates("[", host, closing);
    if ']' !in host {
      BracketEnds(hp, host, port);
      assert (":" + port)[1..] == port;
    } else {
      EarlyBracket(hp, host, closing);
    }
  }

  // Where the bracket that closes the host is, and what is around it.
  lemma BracketEnds(hp: string, host: string, port: string)
    requires ']' !in host && hp == ("[" + host) + ("]" + (":" + port))
    ensures First(Is(']'), hp) == |host| + 1 < |hp| && hp[0] == '['
    ensures hp[1..|host| + 1] == host && hp[|host| + 2..] == ":" + port
  {
    var opening, closing := "[" + host, "]" + (":" + port);
    FirstSplits(Is(']'), opening, closing);
    assert hp[1..|host| + 1] == opening[1..] == host;
    assert hp[|host| + 2..] == closing[1..] == ":" + port;
  }

  lemma PlainHostReads(u: UrlDsn, host: string, port: string)
    requires ':' !in host && ':' !in port && ']' !in port && u.hostport == JoinHostPort(host, port)
    ensures HostPort(u) == (host, port) <==> Bracketable(host)
  {
    var hp := u.hostport;
    LastSplits(':', host, port);
    assert hp == host + ([':'] + port) && hp[..|host|] == host && hp[|host| + 1..] == port;
    if ']' !in host {
      FirstSplits(Is(']'), hp, []);
      assert hp + [] == hp;
    } else {
      FirstMeaning(Is(']'), hp);
      var i :| 0 <= i < |host| && host[i] == ']';
      assert hp[i] == ']';
    }
  }

  // The first closing bracket is inside the host, so what is read back is shorter.
  lemma EarlyBracket(hp: string, host: string, closing: string)
    requires hp == ("[" + host) + closing && ']' in host
    ensures First(Is(']'), hp) < |host| + 1
  {
    FirstMeaning(Is(']'), hp);
    var i :| 0 <= i < |host| && host[i] == ']';
    assert hp[i + 1] == ']';
  }

  lemma HostPortWithin(u: UrlDsn, c: char)
    requires c in HostPort(u).0
    ensures c in u.hostport
  {
  }

  lemma JoinMembers(host: string, port: string)
    ensures forall c :: c in host ==> c in JoinHostPort(host, port)
    ensures forall c :: c in JoinHostPort(host, port) ==> c in host || c in port || c == '[' || c == ']' || c == ':'
  {
    forall c | c in host ensures c in JoinHostPort(host, port) {
      var i :| 0 <= i < |host| && host[i] == c;
      assert JoinHostPort(host, port)[if ':' in host then i + 1 else i] == c;
    }
  }
}
