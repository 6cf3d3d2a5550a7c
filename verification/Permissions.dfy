// Permission rules and the compiled form they are looked up in.
module Permissions {
  import opened Collections

  const MANAGE := "manage"
  const SELECT := "select"
  const INSERT := "insert"
  const UPDATE := "update"
  const DELETE := "delete"
  const SEE := "see"
  const NONE := ""

  // One rule. A missing or "*" name is a wildcard.
  datatype PermissionEntry = PermissionEntry(
    datasource: Option<string>,
    schema: Option<string>,
    table: Option<string>,
    column: Option<string>,
    action: string,
    effect: string,
    role: string)

  datatype Key = Key(datasource: string, schema: string, table: string, column: string, action: string)

  datatype Compiled = Compiled(
    deny: map<Key, string>, allow: map<Key, string>, managed: set<string>, denyUnmanaged: bool)

  function Wildcard(name: Option<string>): string {
    if name.None? || name.value == "*" then "" else name.value
  }

  function KeyOf(e: PermissionEntry): Key {
    Key(Wildcard(e.datasource), Wildcard(e.schema), Wildcard(e.table), Wildcard(e.column), e.action)
  }

  predicate Denies(e: PermissionEntry) {
    e.effect == "deny"
  }

  // What a rule key covers: the datasource and the action exactly, each name
  // exactly or by a wildcard.
  predicate Covers(k: Key, ds: string, schema: string, table: string, column: string, action: string) {
    && k.datasource == ds && k.action == action
    && (k.schema == schema || k.schema == "")
    && (k.table == table || k.table == "")
    && (k.column == column || k.column == "")
  }

  // The compiled maps hold exactly the rules of entries.
  ghost predicate Represents(idx: Compiled, entries: seq<PermissionEntry>) {
    && (forall k :: k in idx.deny <==> exists e :: e in entries && Denies(e) && KeyOf(e) == k)
    && (forall k :: k in idx.allow <==> exists e :: e in entries && !Denies(e) && KeyOf(e) == k)
    && (forall ds :: ds in idx.managed <==>
        exists e :: e in entries && e.datasource.Some? && Wildcard(e.datasource) == ds)
  }

  method Compile(entries: seq<PermissionEntry>) returns (idx: Compiled)
    ensures Represents(idx, entries) && !idx.denyUnmanaged
    ensures forall ds, schema, table, column, action ::
              IsAllowed(idx, ds, schema, table, column, action) <==>
                && (exists e :: e in entries && e.effect != "deny" && Applies(e, ds, schema, table, column, action))
                && !(exists e :: e in entries && e.effect == "deny" && Applies(e, ds, schema, table, column, action))
  {
    var deny: map<Key, string>, allow: map<Key, string>, managed: set<string> := map[], map[], {};
    for i := 0 to |entries|
      invariant Represents(Compiled(deny, allow, managed, false), entries[..i])
    {
      var e := entries[i];
      ghost var was := Compiled(deny, allow, managed, false);
      if e.datasource.Some? {
        managed := managed + {Wildcard(e.datasource)};
      }
      if Denies(e) {
        deny := deny[KeyOf(e) := e.role];
      } else {
        allow := allow[KeyOf(e) := e.role];
      }
      assert entries[..i + 1] == entries[..i] + [e];
      RepresentsMore(was, entries[..i], e, Compiled(deny, allow, managed, false));
    }
    assert entries[..|entries|] == entries;
    idx := Compiled(deny, allow, managed, false);
    forall ds, schema, table, column, action
      ensures IsAllowed(idx, ds, schema, table, column, action) <==>
                && (exists e :: e in entries && e.effect != "deny" && Applies(e, ds, schema, table, column, action))
                && !(exists e :: e in entries && e.effect == "deny" && Applies(e, ds, schema, table, column, action))
    {
      AllowedByEntries(idx, entries, ds, schema, table, column, action);
    }
  }

  // A name of an entry that matches any: absent, "*" or empty.
  predicate MatchesAny(name: Option<string>) {
    name.None? || name.value == "*" || name.value == ""
  }

  // The entry speaks of this action on this object. A datasource left out, or
  // written "*", stands for the empty one only.
  predicate Applies(e: PermissionEntry, ds: string, schema: string, table: string, column: string, action: string) {
    && e.action == action
    && (if MatchesAny(e.datasource) then ds == "" else e.datasource.value == ds)
    && (MatchesAny(e.schema) || e.schema.value == schema)
    && (MatchesAny(e.table) || e.table.value == table)
    && (MatchesAny(e.column) || e.column.value == column)
  }

  lemma CoversApplies(e: PermissionEntry, ds: string, schema: string, table: string, column: string, action: string)
    ensures Covers(KeyOf(e), ds, schema, table, column, action) <==> Applies(e, ds, schema, table, column, action)
  {
  }

  // What the compiled rules allow, in terms of the entries.
  lemma AllowedByEntries(idx: Compiled, entries: seq<PermissionEntry>,
                         ds: string, schema: string, table: string, column: string, action: string)
    requires Represents(idx, entries)
    ensures IsAllowed(idx, ds, schema, table, column, action) <==>
              && (exists e :: e in entries && e.effect != "deny" && Applies(e, ds, schema, table, column, action))
              && !(exists e :: e in entries && e.effect == "deny" && Applies(e, ds, schema, table, column, action))
  {
    MatchedIsListed(idx, entries, ds, schema, table, column, action);
    forall e
      ensures Covers(KeyOf(e), ds, schema, table, column, action) <==> Applies(e, ds, schema, table, column, action)
    {
      CoversApplies(e, ds, schema, table, column, action);
    }
  }

  // A right on the whole connection needs an entry that allows the action on
  // everything, and no entry, of the connection or of no datasource, that
  // denies it on anything.
  lemma AnywhereByEntries(idx: Compiled, entries: seq<PermissionEntry>, ds: string, action: string)
    requires Represents(idx, entries)
    ensures Holds(idx, ds, Anywhere(action)) <==>
              && (exists e :: e in entries && e.effect != "deny" && Applies(e, ds, "", "", "", action))
              && !(exists e :: e in entries && e.effect == "deny" && e.action == action &&
                     (MatchesAny(e.datasource) || e.datasource.value == ds))
  {
    AllowedByEntries(idx, entries, ds, "", "", "", action);
    DeniedIsListed(idx, entries, ds, action);
    if e :| e in entries && e.effect == "deny" && Applies(e, ds, "", "", "", action) {
      assert MatchesAny(e.datasource) || e.datasource.value == ds;
    }
  }

  // A datasource is managed when some entry names it, or when every one is.
  lemma ManagedByEntries(idx: Compiled, entries: seq<PermissionEntry>, ds: string)
    requires Represents(idx, entries)
    ensures IsManaged(idx, ds) <==>
              || idx.denyUnmanaged
              || (exists e :: e in entries && e.datasource.Some? &&
                    (if e.datasource.value == "*" then ds == "" else e.datasource.value == ds))
  {
  }

  lemma RepresentsMore(idx: Compiled, entries: seq<PermissionEntry>, e: PermissionEntry, idx': Compiled)
    requires Represents(idx, entries)
    requires idx'.deny.Keys == idx.deny.Keys + (if Denies(e) then {KeyOf(e)} else {})
    requires idx'.allow.Keys == idx.allow.Keys + (if Denies(e) then {} else {KeyOf(e)})
    requires idx'.managed == idx.managed + (if e.datasource.Some? then {Wildcard(e.datasource)} else {})
    ensures Represents(idx', entries + [e])
  {
    var more := entries + [e];
    assert e in more;
    assert forall x :: x in more <==> x == e || x in entries;
    forall k ensures k in idx'.deny <==> exists x :: x in more && Denies(x) && KeyOf(x) == k {
      assert k in idx'.deny <==> k in idx'.deny.Keys;
    }
    forall k ensures k in idx'.allow <==> exists x :: x in more && !Denies(x) && KeyOf(x) == k {
      assert k in idx'.allow <==> k in idx'.allow.Keys;
    }
  }

  predicate IsManaged(idx: Compiled, ds: string) {
    idx.denyUnmanaged || ds in idx.managed
  }

  predicate Matched(m: map<Key, string>, ds: string, schema: string, table: string, column: string, action: string) {
    exists k :: k in m && Covers(k, ds, schema, table, column, action)
  }

  predicate IsAllowed(idx: Compiled, ds: string, schema: string, table: string, column: string, action: string) {
    !Matched(idx.deny, ds, schema, table, column, action) && Matched(idx.allow, ds, schema, table, column, action)
  }

  // Eight lookups, one per combination of named and wildcard, find every rule that covers a name.
  method Scan(m: map<Key, string>, ds: string, schema: string, table: string, column: string, action: string)
    returns (found: bool, role: string)
    ensures found <==> Matched(m, ds, schema, table, column, action)
    ensures found ==> exists k :: k in m && Covers(k, ds, schema, table, column, action) && m[k] == role
  {
    var schemas, tables, columns := [schema, ""], [table, ""], [column, ""];
    for i := 0 to 2
      invariant forall s, t, c :: s in schemas[..i] && t in tables && c in columns ==> Key(ds, s, t, c, action) !in m
    {
      for j := 0 to 2
        invariant forall t, c :: t in tables[..j] && c in columns ==> Key(ds, schemas[i], t, c, action) !in m
      {
        for l := 0 to 2
          invariant forall c :: c in columns[..l] ==> Key(ds, schemas[i], tables[j], c, action) !in m
        {
          var k := Key(ds, schemas[i], tables[j], columns[l], action);
          if k in m {
            return true, m[k];
          }
          assert columns[..l + 1] == columns[..l] + [columns[l]];
        }
        assert columns[..2] == columns;
        assert tables[..j + 1] == tables[..j] + [tables[j]];
      }
      assert tables[..2] == tables;
      assert schemas[..i + 1] == schemas[..i] + [schemas[i]];
    }
    assert schemas[..2] == schemas;
    forall k | k in m ensures !Covers(k, ds, schema, table, column, action) {
      assert k == Key(k.datasource, k.schema, k.table, k.column, k.action);
    }
    return false, "";
  }

  method Decide(idx: Compiled, ds: string, schema: string, table: string, column: string, action: string)
    returns (allowed: bool, role: string)
    ensures allowed <==> IsAllowed(idx, ds, schema, table, column, action)
  {
    var denied, blamed := Scan(idx.deny, ds, schema, table, column, action);
    if denied {
      return false, blamed;
    }
    allowed, role := Scan(idx.allow, ds, schema, table, column, action);
  }

  // A deny of the action at any scope of the connection.
  predicate DeniedAnywhere(idx: Compiled, ds: string, action: string) {
    exists k :: k in idx.deny && k.action == action && (k.datasource == "" || k.datasource == ds)
  }

  // ---- Rights, and what the plain list of rules says about them ----

  // On names a table or one of its columns; Anywhere is a right on everything
  // the connection reaches; Nobody is a requirement no rule can meet.
  datatype Right =
    | On(schema: string, table: string, column: string, action: string)
    | Anywhere(action: string)
    | Nobody

  predicate Holds(idx: Compiled, ds: string, r: Right) {
    match r
    case On(schema, table, column, action) => IsAllowed(idx, ds, schema, table, column, action)
    case Anywhere(action) => !DeniedAnywhere(idx, ds, action) && IsAllowed(idx, ds, "", "", "", action)
    case Nobody => false
  }

  ghost predicate Permits(entries: seq<PermissionEntry>, ds: string, r: Right) {
    match r
    case On(schema, table, column, action) =>
      && (exists e :: e in entries && !Denies(e) && Covers(KeyOf(e), ds, schema, table, column, action))
      && !(exists e :: e in entries && Denies(e) && Covers(KeyOf(e), ds, schema, table, column, action))
    case Anywhere(action) =>
      && (exists e :: e in entries && !Denies(e) && Covers(KeyOf(e), ds, "", "", "", action))
      && !(exists e :: e in entries && Denies(e) && e.action == action && Wildcard(e.datasource) in {"", ds})
    case Nobody => false
  }

  ghost predicate ManagedBy(entries: seq<PermissionEntry>, denyUnmanaged: bool, ds: string) {
    denyUnmanaged || exists e :: e in entries && e.datasource.Some? && Wildcard(e.datasource) == ds
  }

  // The compiled lookup decides every right as the plain list does.
  lemma CompiledDecides(idx: Compiled, entries: seq<PermissionEntry>, ds: string, r: Right)
    requires Represents(idx, entries)
    ensures Holds(idx, ds, r) <==> Permits(entries, ds, r)
    ensures IsManaged(idx, ds) <==> ManagedBy(entries, idx.denyUnmanaged, ds)
  {
    match r
    case On(schema, table, column, action) =>
      MatchedIsListed(idx, entries, ds, schema, table, column, action);
    case Anywhere(action) =>
      MatchedIsListed(idx, entries, ds, "", "", "", action);
      DeniedIsListed(idx, entries, ds, action);
    case Nobody =>
  }

  lemma MatchedIsListed(idx: Compiled, entries: seq<PermissionEntry>,
                        ds: string, schema: string, table: string, column: string, action: string)
    requires Represents(idx, entries)
    ensures Matched(idx.deny, ds, schema, table, column, action) <==>
              exists e :: e in entries && Denies(e) && Covers(KeyOf(e), ds, schema, table, column, action)
    ensures Matched(idx.allow, ds, schema, table, column, action) <==>
              exists e :: e in entries && !Denies(e) && Covers(KeyOf(e), ds, schema, table, column, action)
  {
    if e :| e in entries && Covers(KeyOf(e), ds, schema, table, column, action) {
      assert if Denies(e) then KeyOf(e) in idx.deny else KeyOf(e) in idx.allow;
    }
    forall e | e in entries && Covers(KeyOf(e), ds, schema, table, column, action)
      ensures if Denies(e) then KeyOf(e) in idx.deny else KeyOf(e) in idx.allow
    {
    }
  }

  lemma DeniedIsListed(idx: Compiled, entries: seq<PermissionEntry>, ds: string, action: string)
    requires Represents(idx, entries)
    ensures DeniedAnywhere(idx, ds, action) <==>
              exists e :: e in entries && Denies(e) && e.action == action && Wildcard(e.datasource) in {"", ds}
  {
    forall e | e in entries && Denies(e) ensures KeyOf(e) in idx.deny {
    }
  }

  // Holding a right anywhere is holding it on every name.
  lemma AnywhereCovers(idx: Compiled, ds: string, schema: string, table: string, column: string, action: string)
    requires Holds(idx, ds, Anywhere(action))
    ensures Holds(idx, ds, On(schema, table, column, action))
  {
    var k :| k in idx.allow && Covers(k, ds, "", "", "", action);
    assert Covers(k, ds, schema, table, column, action);
  }
}
