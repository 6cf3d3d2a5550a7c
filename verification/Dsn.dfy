// Reading and setting the host, port and password of a connection string in
// either of its two forms.
module Dsn {
  import opened Collections
  import opened Text
  import opened DsnTokens
  import opened DsnUrl

  const SHORT := "postgres://"
  const LONG := "postgresql://"

  predicate IsUrl(dsn: string) {
    var t := TrimSpace(dsn);
    SHORT <= t || LONG <= t
  }

  // ---- Tokens ----

  // The value of the last token with this key, or empty.
  function LastValue(ts: seq<Token>, key: string): string {
    if ts == [] then "" else if ts[|ts| - 1].key == key then ts[|ts| - 1].value else LastValue(ts[..|ts| - 1], key)
  }

  function FirstValue(ts: seq<Token>, key: string): string {
    if ts == [] then "" else if ts[0].key == key then ts[0].value else FirstValue(ts[1..], key)
  }

  predicate Holds(ts: seq<Token>, key: string) {
    exists t :: t in ts && t.key == key
  }

  // Every token with this key gets the value.
  function Updated(ts: seq<Token>, key: string, value: string): seq<Token> {
    if ts == [] then []
    else [if ts[0].key == key then Token(key, value) else ts[0]] + Updated(ts[1..], key, value)
  }

  function Put(ts: seq<Token>, key: string, value: string): seq<Token> {
    Updated(ts, key, value) + (if Holds(ts, key) then [] else [Token(key, value)])
  }

  // The first token with this key gets the value.
  function PutFirst(ts: seq<Token>, key: string, value: string): seq<Token> {
    if ts == [] then [Token(key, value)]
    else if ts[0].key == key then [Token(key, value)] + ts[1..]
    else [ts[0]] + PutFirst(ts[1..], key, value)
  }

  // The tokens whose key is not among keys, in order.
  function Others(ts: seq<Token>, keys: set<string>): seq<Token> {
    Filter(KeyOutside(keys), ts)
  }

  function KeyOutside(keys: set<string>): Token -> bool {
    (t: Token) => t.key !in keys
  }

  function PutHost(ts: seq<Token>, host: string, port: string): seq<Token> {
    Put(Put(ts, "host", host), "port", port)
  }

  lemma {:induction false} UpdatedAt(ts: seq<Token>, key: string, value: string)
    ensures |Updated(ts, key, value)| == |ts|
    ensures forall i :: 0 <= i < |ts| ==>
              Updated(ts, key, value)[i] == if ts[i].key == key then Token(key, value) else ts[i]
  {
    if ts != [] { UpdatedAt(ts[1..], key, value); }
  }

  lemma {:induction false} OthersSame(s: seq<Token>, t: seq<Token>, keys: set<string>)
    requires |s| == |t| && forall i :: 0 <= i < |s| ==> s[i].key == t[i].key && (s[i].key !in keys ==> s[i] == t[i])
    ensures Others(s, keys) == Others(t, keys)
  {
    if s != [] { OthersSame(s[1..], t[1..], keys); }
  }

  lemma {:induction false} OthersNone(ts: seq<Token>, keys: set<string>)
    requires forall i :: 0 <= i < |ts| ==> ts[i].key in keys
    ensures Others(ts, keys) == []
  {
    if ts != [] { OthersNone(ts[1..], keys); }
  }

  lemma {:induction false} UpdatedReads(ts: seq<Token>, key: string, value: string)
    ensures LastValue(Updated(ts, key, value), key) == if Holds(ts, key) then value else ""
    ensures forall k :: k != key ==> LastValue(Updated(ts, key, value), k) == LastValue(ts, k)
  {
    UpdatedAt(ts, key, value);
    if ts != [] {
      var front, last := ts[..|ts| - 1], ts[|ts| - 1];
      UpdatedAt(front, key, value);
      UpdatedReads(front, key, value);
      assert Updated(ts, key, value)[..|ts| - 1] == Updated(front, key, value);
      HoldsApart(ts, key);
    }
  }

  lemma HoldsApart(ts: seq<Token>, key: string)
    requires ts != []
    ensures Holds(ts, key) <==> Holds(ts[..|ts| - 1], key) || ts[|ts| - 1].key == key
  {
    var front, last := ts[..|ts| - 1], ts[|ts| - 1];
    assert ts == front + [last];
    assert forall t :: t in ts <==> t in front || t == last;
  }

  lemma UpdatedKeeps(ts: seq<Token>, key: string, value: string, keys: set<string>)
    requires key in keys
    ensures Others(Updated(ts, key, value), keys) == Others(ts, keys)
    ensures CleanKeys(ts) ==> CleanKeys(Updated(ts, key, value))
    ensures forall k :: Holds(Updated(ts, key, value), k) <==> Holds(ts, k)
  {
    var ts' := Updated(ts, key, value);
    UpdatedAt(ts, key, value);
    OthersSame(ts', ts, keys);
    forall t | t in ts' ensures exists x :: x in ts && x.key == t.key {
      var i :| 0 <= i < |ts'| && ts'[i] == t;
      assert ts[i] in ts;
    }
    forall t | t in ts ensures exists x :: x in ts' && x.key == t.key {
      var i :| 0 <= i < |ts| && ts[i] == t;
      assert ts'[i] in ts';
    }
  }

  lemma LastAdded(ts: seq<Token>, t: Token)
    ensures forall k :: LastValue(ts + [t], k) == if t.key == k then t.value else LastValue(ts, k)
    ensures forall k :: Holds(ts + [t], k) <==> Holds(ts, k) || t.key == k
  {
    assert (ts + [t])[..|ts|] == ts;
    assert forall x :: x in ts + [t] <==> x in ts || x == t;
    assert t in ts + [t];
  }

  lemma PutReads(ts: seq<Token>, key: string, value: string, keys: set<string>)
    requires key in keys && CleanKey(key)
    ensures var ts' := Put(ts, key, value);
            && LastValue(ts', key) == value
            && (forall k :: k != key ==> LastValue(ts', k) == LastValue(ts, k))
            && (forall k :: Holds(ts', k) <==> Holds(ts, k) || k == key)
            && Others(ts', keys) == Others(ts, keys)
            && (CleanKeys(ts) ==> CleanKeys(ts'))
            && ts' != [] && ts'[0].key == (if ts == [] then key else ts[0].key)
  {
    var updated := Updated(ts, key, value);
    UpdatedAt(ts, key, value);
    UpdatedReads(ts, key, value);
    UpdatedKeeps(ts, key, value, keys);
    if Holds(ts, key) {
      assert updated + [] == updated;
    } else {
      LastAdded(updated, Token(key, value));
      FilterConcat(KeyOutside(keys), updated, [Token(key, value)]);
      OthersNone([Token(key, value)], keys);
    }
  }

  lemma PutHostReads(ts: seq<Token>, host: string, port: string)
    ensures var ts' := PutHost(ts, host, port);
            && LastValue(ts', "host") == host && LastValue(ts', "port") == port
            && Others(ts', {"host", "port"}) == Others(ts, {"host", "port"})
            && (CleanKeys(ts) ==> CleanKeys(ts'))
            && ts' != [] && ts'[0].key == (if ts == [] then "host" else ts[0].key)
  {
    assert CleanKey("host") && CleanKey("port");
    PutReads(ts, "host", host, {"host", "port"});
    PutReads(Put(ts, "host", host), "port", port, {"host", "port"});
  }

  lemma {:induction false} PutFirstReads(ts: seq<Token>, key: string, value: string)
    ensures FirstValue(PutFirst(ts, key, value), key) == value
    ensures Others(PutFirst(ts, key, value), {key}) == Others(ts, {key})
    ensures CleanKeys(ts) && CleanKey(key) ==> CleanKeys(PutFirst(ts, key, value))
    ensures ts != [] ==> PutFirst(ts, key, value)[0].key == ts[0].key
  {
    if ts == [] {
      assert [Token(key, value)][1..] == [];
    } else if ts[0].key == key {
      assert ([Token(key, value)] + ts[1..])[1..] == ts[1..];
    } else {
      var more := PutFirst(ts[1..], key, value);
      PutFirstReads(ts[1..], key, value);
      assert ([ts[0]] + more)[1..] == more;
      if CleanKeys(ts) {
        assert ts[0] in ts && forall t :: t in ts[1..] ==> t in ts;
      }
    }
  }

  lemma {:induction false} OthersReads(ts: seq<Token>, key: string)
    ensures FirstValue(Others(ts, {key}), key) == ""
    ensures CleanKeys(ts) ==> CleanKeys(Others(ts, {key}))
  {
    if ts != [] {
      OthersReads(ts[1..], key);
      var more := Others(ts[1..], {key});
      if ts[0].key != key { assert ([ts[0]] + more)[1..] == more; }
      if CleanKeys(ts) { assert ts[0] in ts && forall t :: t in ts[1..] ==> t in ts; }
    }
  }

  // ---- Reading and setting ----

  function HostStrings(dsn: string): Option<(string, string)> {
    if IsUrl(dsn) then
      match ParseUrl(dsn) case None => None case Some(u) => Some(HostPort(u))
    else
      match Parse(dsn) case None => None case Some(ts) => Some((LastValue(ts, "host"), LastValue(ts, "port")))
  }

  // lookup is net.LookupPort.
  function DSNHost(dsn: string, lookup: string -> Option<int>): Option<(string, int)> {
    match HostStrings(dsn)
    case None => None
    case Some((host, port)) =>
      match lookup(if port == "" then "5432" else port)
      case None => None
      case Some(n) => Some((if host == "" then "127.0.0.1" else host, n))
  }

  function DSNWithHost(dsn: string, host: string, port: string): Option<string> {
    if IsUrl(dsn) then
      match ParseUrl(dsn) case None => None case Some(u) => Some(Rebuild(u.(hostport := JoinHostPort(host, port))))
    else
      match Parse(dsn) case None => None case Some(ts) => Some(Build(PutHost(ts, host, port)))
  }

  function DSNPassword(dsn: string): string {
    if IsUrl(dsn) then
      match ParseUrl(dsn) case None => "" case Some(u) => if u.hasPass then u.pass else ""
    else
      match Parse(dsn) case None => "" case Some(ts) => FirstValue(ts, "password")
  }

  function DSNWithPassword(dsn: string, password: string): string {
    if IsUrl(dsn) then
      match ParseUrl(dsn) case None => dsn case Some(u) => if u.hasPass then Rebuild(u.(pass := password)) else dsn
    else
      match Parse(dsn) case None => dsn case Some(ts) => Build(PutFirst(ts, "password", password))
  }

  function DSNWithoutPassword(dsn: string): string {
    if IsUrl(dsn) then
      match ParseUrl(dsn)
      case None => dsn
      case Some(u) => if u.hasPass then Rebuild(u.(hasPass := false, pass := "")) else dsn
    else
      match Parse(dsn) case None => dsn case Some(ts) => Build(Others(ts, {"password"}))
  }

  // Walks the tokens once, setting host and port where they stand.
  method SetHost(tokens: array<Token>, host: string, port: string) returns (seenHost: bool, seenPort: bool)
    modifies tokens
    ensures tokens[..] == Updated(Updated(old(tokens[..]), "host", host), "port", port)
    ensures seenHost == Holds(old(tokens[..]), "host") && seenPort == Holds(old(tokens[..]), "port")
  {
    seenHost, seenPort := false, false;
    ghost var was := tokens[..];
    for i := 0 to tokens.Length
      invariant forall j :: i <= j < tokens.Length ==> tokens[j] == was[j]
      invariant forall j :: 0 <= j < i ==>
                  tokens[j] == if was[j].key == "host" then Token("host", host)
                               else if was[j].key == "port" then Token("port", port) else was[j]
      invariant seenHost <==> exists j :: 0 <= j < i && was[j].key == "host"
      invariant seenPort <==> exists j :: 0 <= j < i && was[j].key == "port"
    {
      if tokens[i].key == "host" {
        tokens[i] := Token("host", host);
        seenHost := true;
      } else if tokens[i].key == "port" {
        tokens[i] := Token("port", port);
        seenPort := true;
      }
    }
    UpdatedAt(was, "host", host);
    UpdatedAt(Updated(was, "host", host), "port", port);
    assert tokens[..] == Updated(Updated(was, "host", host), "port", port);
  }

  lemma {:induction false} UpdatedAdded(ts: seq<Token>, t: Token, key: string, value: string)
    requires t.key != key
    ensures Updated(ts + [t], key, value) == Updated(ts, key, value) + [t]
  {
    if ts != [] {
      UpdatedAdded(ts[1..], t, key, value);
      assert (ts + [t])[1..] == ts[1..] + [t];
    }
  }

  // Appending what was not seen, after one pass that set the rest.
  lemma AppendedIsPut(ts: seq<Token>, host: string, port: string)
    ensures var both := Updated(Updated(ts, "host", host), "port", port);
            var hosted := if Holds(ts, "host") then both else both + [Token("host", host)];
            PutHost(ts, host, port) == if Holds(ts, "port") then hosted else hosted + [Token("port", port)]
  {
    var updated, h := Updated(ts, "host", host), Token("host", host);
    PutReads(ts, "host", host, {"host"});
    UpdatedAdded(updated, h, "port", port);
    assert updated + [] == updated;
    var put := Updated(Put(ts, "host", host), "port", port);
    assert put + [] == put;
  }

  method WithHost(dsn: string, host: string, port: string) returns (r: Option<string>)
    ensures r == DSNWithHost(dsn, host, port)
  {
    if IsUrl(dsn) {
      var u := ParseURLDSN(dsn);
      if u.None? {
        return None;
      }
      var rebuilt := RebuildURL(u.value.(hostport := JoinHostPort(host, port)));
      return Some(rebuilt);
    }
    var parsed := ParseKV(dsn);
    if parsed.None? {
      return None;
    }
    var ts := parsed.value;
    var tokens := new Token[|ts|](i requires 0 <= i < |ts| => ts[i]);
    assert tokens[..] == ts;
    var seenHost, seenPort := SetHost(tokens, host, port);
    var all := tokens[..];
    if !seenHost {
      all := all + [Token("host", host)];
    }
    if !seenPort {
      all := all + [Token("port", port)];
    }
    AppendedIsPut(ts, host, port);
    r := Some(Build(all));
  }

  // ---- Which form a rewritten string is read in ----

  // A key that would make a string starting with it read as a URL.
  predicate SchemeKey(key: string) {
    SHORT <= key || LONG <= key
  }

  lemma {:induction false} PrefixOfKey(p: string, key: string, rest: string)
    requires CleanKey(p) && rest != [] && rest[0] == '='
    ensures p <= key + rest <==> p <= key
  {
    if p != [] {
      var s := key + rest;
      if key == [] {
        assert s == rest && p[0] in p;
      } else {
        assert forall c :: c in p[1..] ==> c in p;
        PrefixOfKey(p[1..], key[1..], rest);
        assert s[1..] == key[1..] + rest;
        PrefixSteps(p, s);
        PrefixSteps(p, key);
      }
    }
  }

  lemma {:induction false} PrefixTrims(p: string, s: string)
    requires forall c :: c in p ==> !IsSpace(c)
    ensures p <= TrimRight(s) <==> p <= s
  {
    if s != [] && IsSpace(s[|s| - 1]) {
      var front := s[..|s| - 1];
      PrefixTrims(p, front);
      assert p != [] ==> p[|p| - 1] in p;
    }
  }

  lemma SchemesAreClean()
    ensures CleanKey(SHORT) && CleanKey(LONG)
  {
  }

  // A string starting with a key and its equals sign is a URL exactly when the key looks like one.
  lemma KeyDecidesForm(s: string, key: string, rest: string)
    requires SkipSpace(s) == key + rest && rest != [] && rest[0] == '='
    ensures IsUrl(s) <==> SchemeKey(key)
  {
    SchemesAreClean();
    PrefixTrims(SHORT, key + rest);
    PrefixTrims(LONG, key + rest);
    PrefixOfKey(SHORT, key, rest);
    PrefixOfKey(LONG, key, rest);
  }

  lemma BuiltStarts(ts: seq<Token>) returns (rest: string)
    requires ts != []
    ensures Build(ts) == ts[0].key + rest && rest != [] && rest[0] == '='
  {
    var t := ts[0];
    var value := "=" + QuoteKV(t.value);
    if |ts| == 1 {
      rest := value;
    } else {
      var tail := " " + Build(ts[1..]);
      rest := value + tail;
      Associates(t.key, value, tail);
    }
  }

  lemma BuiltForm(ts: seq<Token>)
    requires CleanKeys(ts)
    ensures IsUrl(Build(ts)) <==> ts != [] && SchemeKey(ts[0].key)
  {
    if ts == [] {
      assert TrimSpace("") == "";
    } else {
      var rest := BuiltStarts(ts);
      var s := Build(ts);
      assert ts[0] in ts;
      if ts[0].key != [] { assert ts[0].key[0] in ts[0].key; }
      assert SkipSpace(s) == s;
      KeyDecidesForm(s, ts[0].key, rest);
    }
  }

  lemma {:induction false} KeyPrefix(s: string)
    ensures KeyAt(s) <= s
  {
    if s != [] { KeyPrefix(s[1..]); PrefixStepsOf(s); }
  }

  lemma PrefixStepsOf(s: string)
    requires s != [] && KeyAt(s[1..]) <= s[1..]
    ensures KeyAt(s) <= s
  {
    if KeyAt(s) != [] {
      PrefixSteps(KeyAt(s), s);
      assert KeyAt(s)[1..] == KeyAt(s[1..]);
    }
  }

  // The first token of a string read as tokens does not look like a URL.
  lemma FirstKeyIsPlain(dsn: string)
    requires !IsUrl(dsn) && Parse(dsn).Some? && Parse(dsn).value != []
    ensures !SchemeKey(Parse(dsn).value[0].key)
  {
    var t := SkipSpace(dsn);
    var key := KeyAt(t);
    assert Parse(dsn).value[0].key == key;
    KeyPrefix(t);
    SchemesAreClean();
    PrefixTrims(SHORT, t);
    PrefixTrims(LONG, t);
    PrefixOfPrefix(SHORT, key, t);
    PrefixOfPrefix(LONG, key, t);
  }

  lemma PrefixOfPrefix(p: string, q: string, s: string)
    requires q <= s
    ensures p <= q ==> p <= s
  {
  }

  lemma SchemeFound(p: string, t: string)
    requires p <= t && |p| >= 3 && FindScheme(p) == Some(|p| - 3)
    ensures FindScheme(t) == Some(|p| - 3) && t[..|p|] == p
  {
    assert t == p + t[|p|..];
    SchemeStays(p, t[|p|..]);
  }

  // The scheme a URL starts with.
  lemma SchemeOf(dsn: string) returns (p: string)
    requires IsUrl(dsn)
    ensures (p == SHORT || p == LONG) && p <= TrimSpace(dsn)
    ensures |p| >= 3 && FindScheme(p) == Some(|p| - 3)
  {
    if SHORT <= TrimSpace(dsn) {
      p := SHORT;
      SchemeAfter("postgres", p);
    } else {
      p := LONG;
      SchemeAfter("postgresql", p);
    }
  }

  lemma UrlParses(dsn: string)
    requires IsUrl(dsn)
    ensures ParseUrl(dsn).Some?
  {
    var p := SchemeOf(dsn);
    SchemeFound(p, TrimSpace(dsn));
  }

  lemma SchemeAfter(name: string, prefix: string)
    requires ':' !in name && prefix == name + SCHEME
    ensures FindScheme(prefix) == Some(|name|)
  {
    assert SCHEME[..3] == SCHEME;
    SchemeSkips(name, SCHEME);
  }

  lemma {:induction false} SchemeSkips(s: string, t: string)
    requires ':' !in s && |t| >= 3 && FindScheme(t) == Some(0)
    ensures FindScheme(s + t) == Some(|s|)
  {
    if s == [] {
      assert s + t == t;
    } else {
      assert (s + t)[..3][0] == s[0] && s[0] in s;
      assert forall c :: c in s[1..] ==> c in s;
      SchemeSkips(s[1..], t);
      assert (s + t)[1..] == s[1..] + t;
    }
  }

  // The prefix of a URL is its scheme.
  lemma UrlPrefix(dsn: string)
    requires IsUrl(dsn) && ParseUrl(dsn).Some?
    ensures var prefix := ParseUrl(dsn).value.prefix; prefix == SHORT || prefix == LONG
  {
    var p := SchemeOf(dsn);
    PrefixParsed(dsn, p);
  }

  lemma PrefixParsed(dsn: string, p: string)
    requires p <= TrimSpace(dsn) && |p| >= 3 && FindScheme(p) == Some(|p| - 3)
    ensures ParseUrl(dsn).Some? && ParseUrl(dsn).value.prefix == p
  {
    SchemeFound(p, TrimSpace(dsn));
    assert FindScheme(TrimSpace(dsn)).value + 3 == |p|;
    PrefixIsKept(TrimSpace(dsn), |p|);
  }

  lemma PrefixIsKept(t: string, n: nat)
    requires n <= |t|
    ensures SplitAfter(t, n).prefix == t[..n]
  {
  }

  // A rebuilt URL keeps its scheme.
  lemma RebuiltIsUrl(dsn: string, u: UrlDsn)
    requires IsUrl(dsn) && ParseUrl(dsn).Some? && u.prefix == ParseUrl(dsn).value.prefix && Trimmed(Rebuild(u))
    ensures IsUrl(Rebuild(u))
  {
    UrlPrefix(dsn);
    TrimTrims(Rebuild(u));
  }

  // ---- What a setter wrote is what is read back ----

  predicate Decimal(port: string) {
    port != "" && forall c :: c in port ==> c == '-' || '0' <= c <= '9'
  }

  // Hosts a URL can carry: nothing that would end or split its authority.
  predicate UrlHost(host: string) {
    NoDelimiter(host) && '@' !in host && Bracketable(host)
  }

  lemma JoinEnds(host: string, port: string)
    requires Decimal(port)
    ensures var hp := JoinHostPort(host, port); |hp| > 0 && !IsSpace(hp[|hp| - 1])
  {
    var hp := JoinHostPort(host, port);
    assert hp[|hp| - 1] == port[|port| - 1] && port[|port| - 1] in port;
  }

  lemma EndsTrimmed(front: string, back: string)
    requires front != [] && back != [] && !IsSpace(front[0]) && !IsSpace(back[|back| - 1])
    ensures Trimmed(front + back)
  {
    var s := front + back;
    assert s[0] == front[0] && s[|s| - 1] == back[|back| - 1];
  }

  lemma EndOf(front: string, back: string)
    requires Trimmed(front + back) && back != []
    ensures !IsSpace(back[|back| - 1])
  {
    var s := front + back;
    assert s[|s| - 1] == back[|back| - 1];
  }

  // What comes before the host of a URL.
  function BeforeHost(u: UrlDsn): string {
    if u.hasUser then u.prefix + (UserInfo(u) + "@") else u.prefix
  }

  lemma RebuiltAs(u: UrlDsn)
    ensures Rebuild(u) == BeforeHost(u) + (u.hostport + u.tail)
  {
    if u.hasUser {
      Associates(UserInfo(u), "@", u.hostport);
      Associates(UserInfo(u) + "@", u.hostport, u.tail);
      Associates(u.prefix, UserInfo(u) + "@", u.hostport + u.tail);
    }
  }

  lemma HostedIsTrimmed(u: UrlDsn, hp: string)
    requires Trimmed(Rebuild(u)) && u.prefix != [] && u.prefix[0] == 'p' && hp != [] && !IsSpace(hp[|hp| - 1])
    ensures Trimmed(Rebuild(u.(hostport := hp)))
  {
    var back := hp + u.tail;
    RebuiltAs(u);
    RebuiltAs(u.(hostport := hp));
    if u.tail != [] {
      Associates(BeforeHost(u), u.hostport, u.tail);
      EndOf(BeforeHost(u) + u.hostport, u.tail);
      assert back[|back| - 1] == u.tail[|u.tail| - 1];
    }
    EndsTrimmed(BeforeHost(u), back);
  }

  lemma HostedIsWellFormed(u: UrlDsn, host: string, port: string)
    requires WellFormed(u) && Decimal(port) && u.prefix[0] == 'p'
    ensures Trimmed(Rebuild(u.(hostport := JoinHostPort(host, port))))
    ensures WellFormed(u.(hostport := JoinHostPort(host, port))) <==> NoDelimiter(host) && '@' !in host
  {
    var hp := JoinHostPort(host, port);
    JoinEnds(host, port);
    HostFree(host, port);
    HostedIsTrimmed(u, hp);
    HostReplaced(u, hp);
  }

  lemma HostReplaced(u: UrlDsn, hp: string)
    requires WellFormed(u) && Trimmed(Rebuild(u.(hostport := hp)))
    ensures WellFormed(u.(hostport := hp)) <==> NoDelimiter(hp) && '@' !in hp
  {
  }

  lemma HostFree(host: string, port: string)
    requires Decimal(port)
    ensures var hp := JoinHostPort(host, port); NoDelimiter(hp) && '@' !in hp <==> NoDelimiter(host) && '@' !in host
  {
    JoinMembers(host, port);
  }

  // A host holding a character no authority holds is never read back.
  lemma ParsedHostIsFree(dsn: string)
    requires ParseUrl(dsn).Some?
    ensures var host := HostPort(ParseUrl(dsn).value).0; NoDelimiter(host) && '@' !in host
  {
    var u := ParseUrl(dsn).value;
    ParsedRebuilds(dsn);
    forall c | c in HostPort(u).0 ensures !Delimits(c) && c != '@' {
      HostPortWithin(u, c);
    }
  }

  lemma SchemeStartsWithP(dsn: string)
    requires IsUrl(dsn) && ParseUrl(dsn).Some?
    ensures ParseUrl(dsn).value.prefix != [] && ParseUrl(dsn).value.prefix[0] == 'p'
  {
    UrlPrefix(dsn);
  }

  // The host and port that were set are read back, and the rest is as it was:
  // always in a key=value string, and in a URL exactly for hosts it can carry.
  lemma HostIsReadBack(dsn: string, host: string, port: string)
    requires Decimal(port) && DSNWithHost(dsn, host, port).Some?
    ensures var dsn' := DSNWithHost(dsn, host, port).value;
            && IsUrl(dsn') == IsUrl(dsn)
            && (HostStrings(dsn') == Some((host, port)) <==> (IsUrl(dsn) ==> UrlHost(host)))
            && (!IsUrl(dsn) ==>
                  && Parse(dsn').Some?
                  && Others(Parse(dsn').value, {"host", "port"}) == Others(Parse(dsn).value, {"host", "port"}))
            && (IsUrl(dsn) && UrlHost(host) ==>
                  ParseUrl(dsn') == Some(ParseUrl(dsn).value.(hostport := JoinHostPort(host, port))))
  {
    var dsn' := DSNWithHost(dsn, host, port).value;
    if IsUrl(dsn) {
      var u := ParseUrl(dsn).value;
      var u' := u.(hostport := JoinHostPort(host, port));
      UrlHostReadBack(dsn, u, u', host, port);
    } else {
      var ts := Parse(dsn).value;
      var ts' := PutHost(ts, host, port);
      ParsedKeysAreClean(dsn);
      PutHostReads(ts, host, port);
      BuildParses(ts');
      BuiltForm(ts');
      if ts != [] { FirstKeyIsPlain(dsn); }
    }
  }

  lemma UrlHostReadBack(dsn: string, u: UrlDsn, u': UrlDsn, host: string, port: string)
    requires IsUrl(dsn) && ParseUrl(dsn) == Some(u) && Decimal(port) && u' == u.(hostport := JoinHostPort(host, port))
    ensures IsUrl(Rebuild(u'))
    ensures HostStrings(Rebuild(u')) == Some((host, port)) <==> UrlHost(host)
    ensures UrlHost(host) ==> ParseUrl(Rebuild(u')) == Some(u')
  {
    ParsedRebuilds(dsn);
    SchemeStartsWithP(dsn);
    HostedIsWellFormed(u, host, port);
    RebuiltIsUrl(dsn, u');
    UrlParses(Rebuild(u'));
    if NoDelimiter(host) && '@' !in host {
      RebuiltParses(u');
      JoinReads(u', host, port);
    } else {
      ParsedHostIsFree(Rebuild(u'));
    }
  }

  // Through the defaults and the port lookup: what is dialled is what was set.
  lemma DialsWhatWasSet(dsn: string, host: string, port: string, lookup: string -> Option<int>)
    requires Decimal(port) && DSNWithHost(dsn, host, port).Some? && (IsUrl(dsn) ==> UrlHost(host))
    ensures DSNHost(DSNWithHost(dsn, host, port).value, lookup) ==
            match lookup(port) case None => None case Some(n) => Some((if host == "" then "127.0.0.1" else host, n))
  {
    HostIsReadBack(dsn, host, port);
  }

  lemma RebuiltForm(u: UrlDsn)
    requires WellFormed(u) && (u.prefix == SHORT || u.prefix == LONG)
    ensures IsUrl(Rebuild(u)) && ParseUrl(Rebuild(u)) == Some(u)
  {
    RebuiltParses(u);
    TrimTrims(Rebuild(u));
  }

  // A URL that names no port is dialled at PostgreSQL's own, whatever else it
  // says, and one that names no host at the local one.
  lemma DialsWithoutPort(u: UrlDsn, host: string, lookup: string -> Option<int>)
    requires WellFormed(u) && (u.prefix == SHORT || u.prefix == LONG)
    requires (':' !in host && !Bracketed(host) && u.hostport == host) ||
             (']' !in host && u.hostport == "[" + host + "]" + "")
    ensures DSNHost(Rebuild(u), lookup) ==
            match lookup("5432") case None => None case Some(n) => Some((if host == "" then "127.0.0.1" else host, n))
  {
    RebuiltForm(u);
    if u.hostport == host {
      PlainHostPort(u, "", "");
    } else {
      BracketedHostPort(u, host, "");
    }
  }

  // One that names both is dialled at both.
  lemma DialsHostAndPort(u: UrlDsn, host: string, port: string, lookup: string -> Option<int>)
    requires WellFormed(u) && (u.prefix == SHORT || u.prefix == LONG) && ':' !in port && port != ""
    requires (!Bracketed(u.hostport) && u.hostport == host + ":" + port) ||
             (']' !in host && u.hostport == "[" + host + "]" + (":" + port))
    ensures DSNHost(Rebuild(u), lookup) ==
            match lookup(port) case None => None case Some(n) => Some((if host == "" then "127.0.0.1" else host, n))
  {
    RebuiltForm(u);
    if !Bracketed(u.hostport) {
      PlainHostPort(u, host, port);
    } else {
      BracketedHostPort(u, host, ":" + port);
      assert (":" + port)[1..] == port;
    }
  }

  // ---- Which token is read ----

  // The value of the last token with this key, or of none.
  ghost predicate LastIs(ts: seq<Token>, key: string, value: string) {
    if exists t :: t in ts && t.key == key
    then exists i :: 0 <= i < |ts| && ts[i] == Token(key, value) && forall j :: i < j < |ts| ==> ts[j].key != key
    else value == ""
  }

  // The value of the first token with this key, or of none.
  ghost predicate FirstIs(ts: seq<Token>, key: string, value: string) {
    if exists t :: t in ts && t.key == key
    then exists i :: 0 <= i < |ts| && ts[i] == Token(key, value) && forall j :: 0 <= j < i ==> ts[j].key != key
    else value == ""
  }

  lemma {:induction false} LastValueIs(ts: seq<Token>, key: string, value: string)
    requires LastIs(ts, key, value)
    ensures LastValue(ts, key) == value
  {
    if ts != [] && ts[|ts| - 1].key != key {
      var front := ts[..|ts| - 1];
      assert forall t :: t in front ==> t in ts;
      if t :| t in ts && t.key == key {
        var i :| 0 <= i < |ts| && ts[i] == Token(key, value) && forall j :: i < j < |ts| ==> ts[j].key != key;
        assert front[i] == ts[i] && front[i] in front;
        assert forall j :: i < j < |front| ==> front[j] == ts[j];
      }
      LastValueIs(front, key, value);
    } else if ts != [] {
      assert ts[|ts| - 1] in ts;
    }
  }

  lemma {:induction false} FirstValueIs(ts: seq<Token>, key: string, value: string)
    requires FirstIs(ts, key, value)
    ensures FirstValue(ts, key) == value
  {
    if ts != [] && ts[0].key != key {
      var rest := ts[1..];
      assert forall t :: t in rest ==> t in ts;
      if t :| t in ts && t.key == key {
        var i :| 0 <= i < |ts| && ts[i] == Token(key, value) && forall j :: 0 <= j < i ==> ts[j].key != key;
        assert rest[i - 1] == ts[i] && rest[i - 1] in rest;
        assert forall j :: 0 <= j < i - 1 ==> rest[j] == ts[j + 1];
      }
      FirstValueIs(rest, key, value);
    } else if ts != [] {
      assert ts[0] in ts;
    }
  }

  // Of tokens that repeat a key the last host and port are dialled, and the
  // first password is read.
  lemma TokensRead(ts: seq<Token>, lookup: string -> Option<int>, host: string, port: string, password: string)
    requires CleanKeys(ts) && ts != [] && !SchemeKey(ts[0].key)
    requires LastIs(ts, "host", host) && LastIs(ts, "port", port) && FirstIs(ts, "password", password)
    ensures DSNPassword(Build(ts)) == password
    ensures DSNHost(Build(ts), lookup) ==
            match lookup(if port == "" then "5432" else port)
            case None => None
            case Some(n) => Some((if host == "" then "127.0.0.1" else host, n))
  {
    BuiltReads(ts);
    LastValueIs(ts, "host", host);
    LastValueIs(ts, "port", port);
    FirstValueIs(ts, "password", password);
  }

  // ---- Which tokens a setter changes ----

  lemma PutHostExactly(ts: seq<Token>, host: string, port: string)
    ensures var ts' := PutHost(ts, host, port);
            && |ts| <= |ts'|
            && (forall i :: 0 <= i < |ts| ==>
                  ts'[i] == if ts[i].key == "host" then Token("host", host)
                            else if ts[i].key == "port" then Token("port", port) else ts[i])
            && ts'[|ts|..] == (if Holds(ts, "host") then [] else [Token("host", host)])
                              + (if Holds(ts, "port") then [] else [Token("port", port)])
  {
    AppendedIsPut(ts, host, port);
    UpdatedAt(ts, "host", host);
    UpdatedAt(Updated(ts, "host", host), "port", port);
  }

  // Every host and port token is set where it stands, and one that is missing
  // is added at the end, the host first.
  lemma HostTokensExactly(dsn: string, host: string, port: string)
    requires !IsUrl(dsn) && Parse(dsn).Some?
    ensures var ts, dsn' := Parse(dsn).value, DSNWithHost(dsn, host, port);
            && dsn'.Some? && Parse(dsn'.value).Some?
            && var ts' := Parse(dsn'.value).value;
            && |ts| <= |ts'|
            && (forall i :: 0 <= i < |ts| ==>
                  ts'[i] == if ts[i].key == "host" then Token("host", host)
                            else if ts[i].key == "port" then Token("port", port) else ts[i])
            && ts'[|ts|..] == (if exists t :: t in ts && t.key == "host" then [] else [Token("host", host)])
                              + (if exists t :: t in ts && t.key == "port" then [] else [Token("port", port)])
  {
    var ts := Parse(dsn).value;
    ParsedKeysAreClean(dsn);
    PutHostReads(ts, host, port);
    BuildParses(PutHost(ts, host, port));
    PutHostExactly(ts, host, port);
  }

  lemma {:induction false} PutFirstAt(ts: seq<Token>, key: string, value: string, i: nat)
    requires i <= |ts| && forall j :: 0 <= j < i ==> ts[j].key != key
    ensures i < |ts| && ts[i].key == key ==> PutFirst(ts, key, value) == ts[..i] + [Token(key, value)] + ts[i + 1..]
    ensures i == |ts| ==> PutFirst(ts, key, value) == ts + [Token(key, value)]
  {
    if ts != [] && i > 0 {
      PutFirstAt(ts[1..], key, value, i - 1);
      assert ts == [ts[0]] + ts[1..];
      assert ts[..i] == [ts[0]] + ts[1..][..i - 1];
    }
  }

  // The first password is set where it stands, or added at the end; without a
  // password is without every token of that key.
  lemma PasswordTokensExactly(dsn: string, ts: seq<Token>, password: string, i: nat)
    requires !IsUrl(dsn) && Parse(dsn) == Some(ts)
    requires i <= |ts| && (forall j :: 0 <= j < i ==> ts[j].key != "password")
        && (i < |ts| ==> ts[i].key == "password")
    ensures Parse(DSNWithPassword(dsn, password)) ==
            Some(if i < |ts| then ts[..i] + [Token("password", password)] + ts[i + 1..]
                 else ts + [Token("password", password)])
    ensures Parse(DSNWithoutPassword(dsn)) == Some(Filter((t: Token) => t.key != "password", ts))
  {
    var ts' := PutFirst(ts, "password", password);
    ParsedKeysAreClean(dsn);
    assert CleanKey("password");
    PutFirstReads(ts, "password", password);
    PutFirstAt(ts, "password", password, i);
    BuildParses(ts');
    OthersReads(ts, "password");
    BuildParses(Others(ts, {"password"}));
    FilterSame(KeyOutside({"password"}), (t: Token) => t.key != "password", ts);
  }

  lemma PassIsWellFormed(u: UrlDsn, password: string)
    requires WellFormed(u) && u.hasPass && u.prefix[0] == 'p'
    ensures Trimmed(Rebuild(u.(pass := password)))
    ensures NoDelimiter(password) ==> WellFormed(u.(pass := password))
  {
    SameEnd(u, u.(pass := password));
    if NoDelimiter(password) { PassReplaced(u, u.(pass := password)); }
  }

  lemma NoPassIsWellFormed(u: UrlDsn)
    requires WellFormed(u) && u.hasPass && u.prefix[0] == 'p'
    ensures WellFormed(u.(hasPass := false, pass := ""))
  {
    SameEnd(u, u.(hasPass := false, pass := ""));
    PassReplaced(u, u.(hasPass := false, pass := ""));
  }

  lemma PassReplaced(u: UrlDsn, u': UrlDsn)
    requires WellFormed(u) && u.hasUser && u' == u.(hasPass := u'.hasPass, pass := u'.pass) && Trimmed(Rebuild(u'))
    requires NoDelimiter(u'.pass) && (!u'.hasPass ==> u'.pass == "")
    ensures WellFormed(u')
  {
  }

  lemma SameEnd(u: UrlDsn, u': UrlDsn)
    requires Trimmed(Rebuild(u)) && u.hasUser && u'.hasUser && u'.prefix == u.prefix && u.prefix != []
        && u.prefix[0] == 'p'
    requires u.hostport == u'.hostport && u.tail == u'.tail
    ensures Trimmed(Rebuild(u'))
  {
    var end := "@" + (u.hostport + u.tail);
    FromAt(u);
    FromAt(u');
    EndOf(u.prefix + UserInfo(u), end);
    EndsTrimmed(u'.prefix + UserInfo(u'), end);
  }

  lemma FromAt(u: UrlDsn)
    requires u.hasUser
    ensures Rebuild(u) == (u.prefix + UserInfo(u)) + ("@" + (u.hostport + u.tail))
  {
    RebuiltAs(u);
    Associates(u.prefix, UserInfo(u), "@");
    Associates(u.prefix + UserInfo(u), "@", u.hostport + u.tail);
  }

  // When the password that was set is the one read back: a string of tokens
  // always, a URL that already carries one exactly for passwords free of '/',
  // '?' and '#', and a string that is left alone only for the empty password.
  predicate PasswordSettable(dsn: string, password: string) {
    if IsUrl(dsn) then
      match ParseUrl(dsn)
      case None => password == ""
      case Some(u) => if u.hasPass then NoDelimiter(password) else password == ""
    else Parse(dsn).None? ==> password == ""
  }

  lemma PasswordIsReadBack(dsn: string, password: string)
    ensures DSNPassword(DSNWithPassword(dsn, password)) == password <==> PasswordSettable(dsn, password)
  {
    if IsUrl(dsn) {
      UrlParses(dsn);
      if ParseUrl(dsn).value.hasPass {
        UrlPasswordReadBack(dsn, ParseUrl(dsn).value, password);
      }
    } else if Parse(dsn).Some? {
      TokenPasswordReadBack(dsn, Parse(dsn).value, password);
    }
  }

  lemma UrlPasswordReadBack(dsn: string, u: UrlDsn, password: string)
    requires IsUrl(dsn) && ParseUrl(dsn) == Some(u) && u.hasPass
    ensures IsUrl(Rebuild(u.(pass := password)))
    ensures DSNPassword(Rebuild(u.(pass := password))) == password <==> NoDelimiter(password)
    ensures NoDelimiter(password) ==> ParseUrl(Rebuild(u.(pass := password))) == Some(u.(pass := password))
  {
    var u' := u.(pass := password);
    ParsedRebuilds(dsn);
    SchemeStartsWithP(dsn);
    PassIsWellFormed(u, password);
    RebuiltIsUrl(dsn, u');
    UrlParses(Rebuild(u'));
    if NoDelimiter(password) {
      RebuiltParses(u');
    } else {
      ParsedPasswordIsFree(Rebuild(u'));
    }
  }

  // A password holding a character no authority holds is never read back.
  lemma ParsedPasswordIsFree(dsn: string)
    requires IsUrl(dsn)
    ensures NoDelimiter(DSNPassword(dsn))
  {
    UrlParses(dsn);
    ParsedRebuilds(dsn);
  }

  lemma TokenPasswordReadBack(dsn: string, ts: seq<Token>, password: string)
    requires !IsUrl(dsn) && Parse(dsn) == Some(ts)
    ensures var dsn' := Build(PutFirst(ts, "password", password));
            && !IsUrl(dsn') && DSNPassword(dsn') == password
            && Parse(dsn').Some? && Others(Parse(dsn').value, {"password"}) == Others(ts, {"password"})
  {
    var ts' := PutFirst(ts, "password", password);
    ParsedKeysAreClean(dsn);
    assert CleanKey("password");
    PutFirstReads(ts, "password", password);
    PutFirstIsPlain(dsn, ts, password);
    BuiltReads(ts');
    TokensPassword(Build(ts'), ts');
  }

  lemma TokensPassword(dsn: string, ts: seq<Token>)
    requires !IsUrl(dsn) && Parse(dsn) == Some(ts)
    ensures DSNPassword(dsn) == FirstValue(ts, "password")
  {
  }

  // Clean tokens whose first key is no scheme are read back as tokens.
  lemma BuiltReads(ts: seq<Token>)
    requires CleanKeys(ts) && ts != [] && !SchemeKey(ts[0].key)
    ensures !IsUrl(Build(ts)) && Parse(Build(ts)) == Some(ts)
  {
    BuildParses(ts);
    BuiltForm(ts);
  }

  lemma PutFirstIsPlain(dsn: string, ts: seq<Token>, password: string)
    requires !IsUrl(dsn) && Parse(dsn) == Some(ts)
    ensures var ts' := PutFirst(ts, "password", password); ts' != [] && !SchemeKey(ts'[0].key)
  {
    if ts != [] { FirstKeyIsPlain(dsn); }
  }

  // Setting a password keeps every other token, in order, and every other part of a URL.
  lemma PasswordKeepsTheRest(dsn: string, password: string)
    requires PasswordSettable(dsn, password)
    ensures IsUrl(dsn) ==>
              && ParseUrl(dsn).Some?
              && ParseUrl(DSNWithPassword(dsn, password)) == Some(ParseUrl(dsn).value.(pass := password))
    ensures !IsUrl(dsn) && Parse(dsn).Some? ==>
              var ts' := Parse(DSNWithPassword(dsn, password));
              ts'.Some? && Others(ts'.value, {"password"}) == Others(Parse(dsn).value, {"password"})
  {
    if IsUrl(dsn) {
      UrlParses(dsn);
      var u := ParseUrl(dsn).value;
      ParsedRebuilds(dsn);
      if u.hasPass {
        UrlPasswordReadBack(dsn, u, password);
      }
    } else if Parse(dsn).Some? {
      TokenPasswordReadBack(dsn, Parse(dsn).value, password);
    }
  }

  // Taking the password out leaves a string read in the same form, exactly
  // unless the token that comes first once the passwords are gone looks like a URL.
  predicate FormKept(dsn: string) {
    IsUrl(dsn) || Parse(dsn).None? ||
    var rest := Others(Parse(dsn).value, {"password"});
    rest == [] || !SchemeKey(rest[0].key)
  }

  // Where what is left looks like a URL, its authority holds a password: the key
  // of the first token left, and what follows it up to the first delimiter.
  predicate PasswordLeft(dsn: string) {
    !FormKept(dsn) && HoldsPassword(AuthorityOf(Build(Others(Parse(dsn).value, {"password"}))))
  }

  // The form is kept, and no password is left, exactly when what is left says so.
  lemma PasswordIsGone(dsn: string)
    ensures IsUrl(DSNWithoutPassword(dsn)) == IsUrl(dsn) <==> FormKept(dsn)
    ensures DSNPassword(DSNWithoutPassword(dsn)) == "" <==> !PasswordLeft(dsn)
  {
    FormDecides(dsn);
    if !FormKept(dsn) {
      var left := DSNWithoutPassword(dsn);
      UrlParses(left);
      ParsedRebuilds(left);
      UrlHoldsPassword(left);
    }
  }

  lemma FormDecides(dsn: string)
    ensures IsUrl(DSNWithoutPassword(dsn)) == IsUrl(dsn) <==> FormKept(dsn)
    ensures FormKept(dsn) ==> DSNPassword(DSNWithoutPassword(dsn)) == ""
  {
    if IsUrl(dsn) {
      UrlParses(dsn);
      var u := ParseUrl(dsn).value;
      if u.hasPass {
        var u' := u.(hasPass := false, pass := "");
        ParsedRebuilds(dsn);
        SchemeStartsWithP(dsn);
        NoPassIsWellFormed(u);
        RebuiltIsUrl(dsn, u');
        RebuiltParses(u');
      }
    } else if Parse(dsn).Some? {
      var ts := Parse(dsn).value;
      ParsedKeysAreClean(dsn);
      OthersReads(ts, "password");
      BuildParses(Others(ts, {"password"}));
      BuiltForm(Others(ts, {"password"}));
    }
  }

  const URL_KEY := SHORT + "u:p@h"
  const LEFTOVER := [Token("password", "x"), Token(URL_KEY, "1")]

  lemma LeftoverKeys()
    ensures CleanKeys(LEFTOVER) && SchemeKey(URL_KEY) && !SchemeKey("password")
  {
    assert SHORT[1] == 'o' && LONG[1] == 'o' && "password"[1] == 'a';
    SchemesAreClean();
    assert CleanKey("u:p@h");
    forall c | c in URL_KEY ensures !IsSpace(c) && c != '=' {
      assert c in SHORT || c in "u:p@h";
    }
    assert CleanKey("password");
  }

  const LEFTOVER_URL := UrlDsn(SHORT, "u", "p", true, true, "h=1", "")

  lemma LeftoverAuthority()
    ensures Authority(LEFTOVER_URL) + LEFTOVER_URL.tail == "u:p@h" + ("=" + "1")
  {
  }

  lemma LeftoverIsBuilt()
    ensures Build([Token(URL_KEY, "1")]) == Rebuild(LEFTOVER_URL)
  {
    LeftoverAuthority();
    Associates(SHORT, "u:p@h", "=" + "1");
    assert QuoteKV("1") == "1";
  }

  lemma LeftoverIsTrimmed()
    ensures Trimmed(Rebuild(LEFTOVER_URL))
  {
    LeftoverAuthority();
    var back := "u:p@h" + ("=" + "1");
    assert back[|back| - 1] == '1';
    EndsTrimmed(SHORT, back);
  }

  lemma LeftoverIsFree()
    ensures NoDelimiter(LEFTOVER_URL.user) && NoDelimiter(LEFTOVER_URL.pass) && NoDelimiter(LEFTOVER_URL.hostport)
    ensures '@' !in LEFTOVER_URL.hostport && ':' !in LEFTOVER_URL.user
  {
    assert LEFTOVER_URL.user == "u" && LEFTOVER_URL.pass == "p" && LEFTOVER_URL.hostport == "h=1";
  }

  lemma LeftoverIsUrl()
    ensures WellFormed(LEFTOVER_URL)
  {
    SchemeAfter("postgres", SHORT);
    LeftoverIsTrimmed();
    LeftoverIsFree();
  }

  lemma LeftoverRest()
    ensures var rest := Build([Token(URL_KEY, "1")]); DSNWithoutPassword(Build(LEFTOVER)) == rest && IsUrl(rest)
    ensures !FormKept(Build(LEFTOVER))
  {
    var ts, t := LEFTOVER, LEFTOVER[1];
    LeftoverKeys();
    BuildParses(ts);
    BuiltForm(ts);
    assert ts[1..] == [t] && Others([t], {"password"}) == [t] + Others([t][1..], {"password"});
    assert t in ts;
    BuiltForm([t]);
  }

  // Where the form changes a password can be left: what was a key becomes the
  // user information of a URL.
  lemma PasswordCanBeLeft()
    ensures PasswordLeft(Build(LEFTOVER)) && DSNPassword(DSNWithoutPassword(Build(LEFTOVER))) == "p"
  {
    LeftoverRest();
    LeftoverIsBuilt();
    LeftoverIsUrl();
    RebuiltParses(LEFTOVER_URL);
    PasswordIsGone(Build(LEFTOVER));
  }
}
