// Resolving the columns a statement names against the relations in scope: those
// of enclosing statements, and those the statement declared itself.
module Resolver {
  import opened Collections
  import opened Statements
  import opened SeeChecks
  import VirtualTables
  import QualifiedNames

  // alias is empty where the relation has none.
  datatype RelationRef = RelationRef(schema: string, table: string, alias: string, qualified: bool)

  function Called(ref: RelationRef): string {
    if ref.alias == "" then ref.table else ref.alias
  }

  function RefOf(t: Table): RelationRef {
    RelationRef(t.schema, t.name, if t.alias.Some? then t.alias.value else "", false)
  }

  function RelationRefsOf(s: Statement): seq<RelationRef> {
    seq(|s.tables|, i requires 0 <= i < |s.tables| => RefOf(s.tables[i]))
  }

  // norm and fold say how the dialect compares names, pseudo which columns no
  // table lists, and columns what the metadata lists for a table.
  datatype Resolver = Resolver(
    norm: string -> string,
    fold: (string, string) -> bool,
    pseudo: string -> bool,
    columns: (string, string) -> seq<string>)
  {
    predicate SameColumn(held: string, name: string) {
      norm(held) == norm(name) || fold(norm(held), norm(name))
    }

    function FirstCalled(refs: seq<RelationRef>, prefix: string): Option<RelationRef> {
      if refs == [] then None
      else if norm(Called(refs[0])) == norm(prefix) then Some(refs[0])
      else FirstCalled(refs[1..], prefix)
    }

    function FirstHeld(held: seq<string>, name: string): Option<string> {
      if held == [] then None
      else if SameColumn(held[0], name) then Some(held[0])
      else FirstHeld(held[1..], name)
    }

    function ColumnName(ref: RelationRef, name: string): string {
      match FirstHeld(columns(ref.schema, ref.table), name)
      case Some(held) => held
      case None => if pseudo(name) then "" else name
    }

    // "prefix.name" against the relations in scope; a prefix none of them
    // carries is kept, naming no schema.
    function Column(prefix: string, name: string, refs: seq<RelationRef>): Field {
      match FirstCalled(refs, prefix)
      case Some(ref) => Field(ColumnName(ref, name), None, ref.table, ref.schema)
      case None => Field(name, None, prefix, "")
    }

    // A field still naming no schema is retried, and dropped if that fails too.
    function Resolved(f: Field, refs: seq<RelationRef>): Option<Field> {
      if f.schema != "" then Some(f)
      else
        var resolved := Column(f.table, f.name, refs);
        if resolved.schema != "" then Some(resolved.(alias := f.alias)) else None
    }

    function ResolvedEach(fields: seq<Field>, refs: seq<RelationRef>): seq<Field> {
      Compacted(f => Resolved(f, refs), fields)
    }

    function Correlated(s: Statement, outer: seq<RelationRef>): Statement {
      s.(fields := ResolvedEach(s.fields, outer),
         where := ResolvedEach(s.where, outer),
         subqueries := CorrelatedIn(s.subqueries, outer + RelationRefsOf(s)))
    }

    function CorrelatedIn(ss: seq<Statement>, outer: seq<RelationRef>): seq<Statement> {
      if ss == [] then [] else [Correlated(ss[0], outer)] + CorrelatedIn(ss[1..], outer)
    }
  }

  method ColumnIn(r: Resolver, prefix: string, name: string, refs: seq<RelationRef>) returns (field: Field)
    ensures field == r.Column(prefix, name, refs)
  {
    for i := 0 to |refs|
      invariant r.FirstCalled(refs, prefix) == r.FirstCalled(refs[i..], prefix)
    {
      assert refs[i..][1..] == refs[i + 1..];
      var ref := refs[i];
      if r.norm(Called(ref)) != r.norm(prefix) {
        continue;
      }
      var held := r.columns(ref.schema, ref.table);
      for j := 0 to |held|
        invariant r.FirstHeld(held, name) == r.FirstHeld(held[j..], name)
      {
        assert held[j..][1..] == held[j + 1..];
        if r.SameColumn(held[j], name) {
          return Field(held[j], None, ref.table, ref.schema);
        }
      }
      return if r.pseudo(name) then Field("", None, ref.table, ref.schema)
             else Field(name, None, ref.table, ref.schema);
    }
    field := Field(name, None, prefix, "");
  }

  // Rewrites the array in place, keeping what resolves at its front.
  method ResolveEach(r: Resolver, fields: array<Field>, refs: seq<RelationRef>) returns (kept: nat)
    modifies fields
    ensures kept <= fields.Length && fields[..kept] == r.ResolvedEach(old(fields[..]), refs)
  {
    kept := CompactInPlace(fields, f => r.Resolved(f, refs));
  }

  lemma CorrelatedFrom(r: Resolver, ss: seq<Statement>, i: nat, outer: seq<RelationRef>, done: seq<Statement>)
    requires i < |ss|
    ensures done + r.CorrelatedIn(ss[i..], outer) ==
        (done + [r.Correlated(ss[i], outer)]) + r.CorrelatedIn(ss[i + 1..], outer)
  {
    assert ss[i..][0] == ss[i] && ss[i..][1..] == ss[i + 1..];
  }

  method ResolveAll(r: Resolver, fields: seq<Field>, refs: seq<RelationRef>) returns (resolved: seq<Field>)
    ensures resolved == r.ResolvedEach(fields, refs)
  {
    var cells := new Field[|fields|](j requires 0 <= j < |fields| => fields[j]);
    assert cells[..] == fields;
    var n := ResolveEach(r, cells, refs);
    resolved := cells[..n];
  }

  method ResolveCorrelated(r: Resolver, ss: seq<Statement>, outer: seq<RelationRef>) returns (resolved: seq<Statement>)
    ensures resolved == r.CorrelatedIn(ss, outer)
  {
    resolved := [];
    for i := 0 to |ss|
      invariant resolved + r.CorrelatedIn(ss[i..], outer) == r.CorrelatedIn(ss, outer)
    {
      var s := ss[i];
      CorrelatedFrom(r, ss, i, outer, resolved);
      var inScope := outer + RelationRefsOf(s);
      var fields := ResolveAll(r, s.fields, outer);
      var where := ResolveAll(r, s.where, outer);
      var subqueries := ResolveCorrelated(r, s.subqueries, inScope);
      resolved := resolved + [s.(fields := fields, where := where, subqueries := subqueries)];
    }
    assert ss[|ss|..] == [];
  }

  lemma {:induction false} FirstCalledMeaning(r: Resolver, refs: seq<RelationRef>, prefix: string)
    ensures r.FirstCalled(refs, prefix).Some? ==>
              exists i :: 0 <= i < |refs| && refs[i] == r.FirstCalled(refs, prefix).value &&
                r.norm(Called(refs[i])) == r.norm(prefix) &&
                forall j :: 0 <= j < i ==> r.norm(Called(refs[j])) != r.norm(prefix)
    ensures r.FirstCalled(refs, prefix).None? ==>
              forall i :: 0 <= i < |refs| ==> r.norm(Called(refs[i])) != r.norm(prefix)
  {
    if refs != [] && r.norm(Called(refs[0])) != r.norm(prefix) {
      FirstCalledMeaning(r, refs[1..], prefix);
      if r.FirstCalled(refs, prefix).Some? {
        var i :| 0 <= i < |refs[1..]| && refs[1..][i] == r.FirstCalled(refs, prefix).value
          && r.norm(Called(refs[1..][i])) == r.norm(prefix)
          && forall j :: 0 <= j < i ==> r.norm(Called(refs[1..][j])) != r.norm(prefix);
        assert refs[i + 1] == refs[1..][i];
        forall j | 0 <= j < i + 1 ensures r.norm(Called(refs[j])) != r.norm(prefix) {
          if j > 0 { assert refs[j] == refs[1..][j - 1]; }
        }
      }
    }
  }

  // A retried field becomes a column of the first relation in scope its prefix
  // calls, keeps its alias, and is dropped exactly when there is no such
  // relation or that one resolved to no schema.
  lemma RetriedField(r: Resolver, f: Field, refs: seq<RelationRef>)
    requires f.schema == ""
    ensures match r.FirstCalled(refs, f.table)
            case None => r.Resolved(f, refs).None?
            case Some(ref) =>
              && ref in refs
              && (r.Resolved(f, refs).Some? <==> ref.schema != "")
              && (r.Resolved(f, refs).Some? ==>
                    var g := r.Resolved(f, refs).value;
                    && g.schema == ref.schema && g.table == ref.table && g.alias == f.alias
                    && (g.name == f.name || g.name == ""
                        || (g.name in r.columns(ref.schema, ref.table) && r.SameColumn(g.name, f.name))))
  {
    FirstCalledMeaning(r, refs, f.table);
    if r.FirstCalled(refs, f.table).Some? {
      var ref := r.FirstCalled(refs, f.table).value;
      FirstHeldMeaning(r, r.columns(ref.schema, ref.table), f.name);
    }
  }

  lemma {:induction false} FirstHeldMeaning(r: Resolver, held: seq<string>, name: string)
    ensures r.FirstHeld(held, name).Some? ==>
              r.FirstHeld(held, name).value in held && r.SameColumn(r.FirstHeld(held, name).value, name)
  {
    if held != [] {
      FirstHeldMeaning(r, held[1..], name);
    }
  }

  // ---- The whole tree ----

  // Every field of the tree of subqueries names a schema.
  ghost predicate Settled(s: Statement) {
    && (forall f :: f in s.fields ==> f.schema != "")
    && (forall f :: f in s.where ==> f.schema != "")
    && (forall i :: 0 <= i < |s.subqueries| ==> Settled(s.subqueries[i]))
  }

  lemma {:induction false} EachSettled(r: Resolver, fields: seq<Field>, refs: seq<RelationRef>)
    ensures forall f :: f in r.ResolvedEach(fields, refs) ==> f.schema != ""
    ensures (forall f :: f in fields ==> f.schema != "") ==> r.ResolvedEach(fields, refs) == fields
  {
    if fields != [] {
      EachSettled(r, fields[1..], refs);
      assert fields == [fields[0]] + fields[1..];
      var step := (f: Field) => r.Resolved(f, refs);
      assert Compacted(step, fields) ==
             match step(fields[0])
             case Some(x) => [x] + Compacted(step, fields[1..])
             case None => Compacted(step, fields[1..]);
    }
  }

  lemma {:induction false} CorrelatedAt(r: Resolver, ss: seq<Statement>, outer: seq<RelationRef>)
    ensures |r.CorrelatedIn(ss, outer)| == |ss|
    ensures forall i :: 0 <= i < |ss| ==> r.CorrelatedIn(ss, outer)[i] == r.Correlated(ss[i], outer)
  {
    if ss != [] {
      CorrelatedAt(r, ss[1..], outer);
    }
  }

  lemma {:induction false} CorrelatedSettles(r: Resolver, s: Statement, outer: seq<RelationRef>)
    ensures Settled(r.Correlated(s, outer))
  {
    var inScope := outer + RelationRefsOf(s);
    EachSettled(r, s.fields, outer);
    EachSettled(r, s.where, outer);
    CorrelatedAt(r, s.subqueries, inScope);
    forall i | 0 <= i < |s.subqueries| ensures Settled(r.Correlated(s.subqueries[i], inScope)) {
      CorrelatedSettles(r, s.subqueries[i], inScope);
    }
  }

  lemma {:induction false} SettledStays(r: Resolver, s: Statement, outer: seq<RelationRef>)
    requires Settled(s)
    ensures r.Correlated(s, outer) == s
  {
    var inScope := outer + RelationRefsOf(s);
    EachSettled(r, s.fields, outer);
    EachSettled(r, s.where, outer);
    CorrelatedAt(r, s.subqueries, inScope);
    forall i | 0 <= i < |s.subqueries| ensures r.Correlated(s.subqueries[i], inScope) == s.subqueries[i] {
      SettledStays(r, s.subqueries[i], inScope);
    }
    assert r.CorrelatedIn(s.subqueries, inScope) == s.subqueries;
  }

  // Resolving leaves no field without a schema at any depth, and resolving
  // again, in whatever scope, changes nothing.
  lemma ResolvingSettles(r: Resolver, ss: seq<Statement>, outer: seq<RelationRef>, again: seq<RelationRef>)
    ensures |r.CorrelatedIn(ss, outer)| == |ss|
    ensures forall i :: 0 <= i < |ss| ==> Settled(r.CorrelatedIn(ss, outer)[i])
    ensures r.CorrelatedIn(r.CorrelatedIn(ss, outer), again) == r.CorrelatedIn(ss, outer)
  {
    var once := r.CorrelatedIn(ss, outer);
    CorrelatedAt(r, ss, outer);
    CorrelatedAt(r, once, again);
    forall i | 0 <= i < |ss| ensures Settled(once[i]) && r.Correlated(once[i], again) == once[i] {
      CorrelatedSettles(r, ss[i], outer);
      SettledStays(r, once[i], again);
    }
    assert r.CorrelatedIn(once, again) == once;
  }

  // The relations of the statements a path of subquery positions goes through.
  function ScopeAlong(ss: seq<Statement>, path: seq<nat>): seq<RelationRef>
    decreases path
  {
    if |path| <= 1 || path[0] >= |ss| then []
    else RelationRefsOf(ss[path[0]]) + ScopeAlong(ss[path[0]].subqueries, path[1..])
  }

  lemma ScopesJoin(a: seq<RelationRef>, b: seq<RelationRef>, c: seq<RelationRef>)
    ensures (a + b) + c == a + (b + c)
  {
  }

  // At every depth a statement is resolved in the scope of exactly the
  // statements enclosing it, outermost first, never its own relations.
  lemma {:induction false} ResolvesInEnclosingScope(r: Resolver, ss: seq<Statement>, outer: seq<RelationRef>,
      path: seq<nat>)
    ensures var s, s' := VirtualTables.At(ss, path), VirtualTables.At(r.CorrelatedIn(ss, outer), path);
            && (s.Some? <==> s'.Some?)
            && (s.Some? ==> s'.value == r.Correlated(s.value, outer + ScopeAlong(ss, path)))
    decreases path
  {
    CorrelatedAt(r, ss, outer);
    if path != [] && path[0] < |ss| {
      var s := ss[path[0]];
      if |path| == 1 {
        assert outer + [] == outer;
      } else {
        var inScope := outer + RelationRefsOf(s);
        ResolvesInEnclosingScope(r, s.subqueries, inScope, path[1..]);
        ScopesJoin(outer, RelationRefsOf(s), ScopeAlong(s.subqueries, path[1..]));
      }
    }
  }

  lemma {:induction false} EachFrom(r: Resolver, fields: seq<Field>, refs: seq<RelationRef>, g: Field)
    requires g in r.ResolvedEach(fields, refs) && g !in fields
    ensures exists f :: f in fields && f.schema == "" && r.Resolved(f, refs) == Some(g)
  {
    var step := (f: Field) => r.Resolved(f, refs);
    if fields != [] {
      if step(fields[0]) == Some(g) {
        assert fields[0] in fields;
      } else {
        EachFrom(r, fields[1..], refs, g);
      }
    }
  }

  // A column resolved from outside belongs to a table of a statement enclosing
  // the one that names it, which is where the right on it is asked for.
  lemma CorrelatedBelongsAbove(r: Resolver, ss: seq<Statement>, path: seq<nat>, g: Field)
    requires var s, s' := VirtualTables.At(ss, path), VirtualTables.At(r.CorrelatedIn(ss, []), path);
             s.Some? && s'.Some? && g in s'.value.fields + s'.value.where && g !in s.value.fields + s.value.where
    ensures exists n :: 0 < n < |path| && EncloserOwns(ss, path, n, g)
  {
    CorrelatedAlong(r, ss, path);
    var ref := EachFromScope(r, VirtualTables.At(ss, path).value, ScopeAlong(ss, path), g);
    ScopeFrom(ss, path, ref, g);
  }

  lemma CorrelatedAlong(r: Resolver, ss: seq<Statement>, path: seq<nat>)
    requires VirtualTables.At(ss, path).Some?
    ensures VirtualTables.At(r.CorrelatedIn(ss, []), path) ==
            Some(r.Correlated(VirtualTables.At(ss, path).value, ScopeAlong(ss, path)))
  {
    ResolvesInEnclosingScope(r, ss, [], path);
    assert [] + ScopeAlong(ss, path) == ScopeAlong(ss, path);
  }

  lemma EachFromScope(r: Resolver, s: Statement, scope: seq<RelationRef>, g: Field) returns (ref: RelationRef)
    requires var s' := r.Correlated(s, scope); g in s'.fields + s'.where && g !in s.fields + s.where
    ensures ref in scope && ref.schema == g.schema && ref.table == g.table
  {
    if g in r.ResolvedEach(s.fields, scope) {
      EachFrom(r, s.fields, scope, g);
    } else {
      EachFrom(r, s.where, scope, g);
    }
    var f: Field :| f.schema == "" && r.Resolved(f, scope) == Some(g);
    RetriedField(r, f, scope);
    ref := r.FirstCalled(scope, f.table).value;
  }

  // The statement n steps down the path has the table f belongs to.
  ghost predicate EncloserOwns(ss: seq<Statement>, path: seq<nat>, n: nat, f: Field) {
    n <= |path| && var s := VirtualTables.At(ss, path[..n]); s.Some? && OwnsField(s.value, f)
  }

  lemma {:induction false} ScopeFrom(ss: seq<Statement>, path: seq<nat>, ref: RelationRef, f: Field)
    requires ref in ScopeAlong(ss, path) && ref.schema == f.schema && ref.table == f.table
    ensures exists n :: 0 < n < |path| && EncloserOwns(ss, path, n, f)
    decreases path
  {
    var s := ss[path[0]];
    if ref in RelationRefsOf(s) {
      var i :| 0 <= i < |s.tables| && RelationRefsOf(s)[i] == ref;
      assert FieldOf(f, s.tables[i]) && s.tables[i] in s.tables;
      assert path[..1] == [path[0]];
      assert EncloserOwns(ss, path, 1, f);
    } else {
      ScopeFrom(s.subqueries, path[1..], ref, f);
      var n :| 0 < n < |path[1..]| && EncloserOwns(s.subqueries, path[1..], n, f);
      assert path[..n + 1][1..] == path[1..][..n];
      assert EncloserOwns(ss, path, n + 1, f);
    }
  }

  // ---- Resolving, in terms of the tables of the enclosing statements ----

  // The tables of the statements a path goes through, outermost first.
  function TablesAlong(ss: seq<Statement>, path: seq<nat>): seq<Table>
    decreases path
  {
    if |path| <= 1 || path[0] >= |ss| then []
    else ss[path[0]].tables + TablesAlong(ss[path[0]].subqueries, path[1..])
  }

  // The table goes by this name: its alias, or its own name without one.
  predicate GoesBy(r: Resolver, t: Table, prefix: string) {
    r.norm(if t.alias.None? || t.alias.value == "" then t.name else t.alias.value) == r.norm(prefix)
  }

  // t is the first of the tables that goes by this name.
  ghost predicate FirstGoingBy(r: Resolver, tables: seq<Table>, prefix: string, t: Table) {
    exists n :: 0 <= n < |tables| && tables[n] == t && GoesBy(r, t, prefix) &&
      forall m :: 0 <= m < n ==> !GoesBy(r, tables[m], prefix)
  }

  // What a column of t is called: the first spelling the metadata holds that the
  // dialect reads as the name, or the name as written, or nothing for a pseudo-column.
  ghost predicate Spelled(r: Resolver, t: Table, name: string, spelled: string) {
    var held := r.columns(t.schema, t.name);
    if exists c :: c in held && SameName(r, c, name)
    then exists j :: 0 <= j < |held| && held[j] == spelled && SameName(r, held[j], name) &&
           forall i :: 0 <= i < j ==> !SameName(r, held[i], name)
    else spelled == if r.pseudo(name) then "" else name
  }

  predicate SameName(r: Resolver, held: string, name: string) {
    r.norm(held) == r.norm(name) || r.fold(r.norm(held), r.norm(name))
  }

  // What a field becomes among these tables: itself if it names a schema, or the
  // column of the first table its prefix goes by, under its own alias.
  ghost predicate Becomes(r: Resolver, tables: seq<Table>, f: Field, g: Field) {
    if f.schema != "" then g == f
    else
      && g.alias == f.alias
      && exists t :: FirstGoingBy(r, tables, f.table, t) && t.schema != "" && g.schema == t.schema && g.table == t.name
           && Spelled(r, t, f.name, g.name)
  }

  lemma {:induction false} ScopeOfTables(ss: seq<Statement>, path: seq<nat>)
    ensures |ScopeAlong(ss, path)| == |TablesAlong(ss, path)|
    ensures forall i :: 0 <= i < |TablesAlong(ss, path)| ==> ScopeAlong(ss, path)[i] == RefOf(TablesAlong(ss, path)[i])
    decreases path
  {
    if |path| > 1 && path[0] < |ss| {
      ScopeOfTables(ss[path[0]].subqueries, path[1..]);
    }
  }

  lemma {:induction false} CompactedMember<T(!new)>(step: T -> Option<T>, s: seq<T>, g: T)
    ensures g in Compacted(step, s) <==> exists f :: f in s && step(f) == Some(g)
  {
    if s != [] {
      var rest := s[1..];
      CompactedMember(step, rest, g);
      assert s == [s[0]] + rest;
      assert forall f :: f in s <==> f == s[0] || f in rest;
    }
  }

  lemma SpelledIs(r: Resolver, ref: RelationRef, t: Table, name: string, spelled: string)
    requires ref == RefOf(t)
    ensures r.ColumnName(ref, name) == spelled <==> Spelled(r, t, name, spelled)
  {
    FirstHeldAt(r, r.columns(t.schema, t.name), name);
  }

  lemma {:induction false} FirstHeldAt(r: Resolver, held: seq<string>, name: string)
    ensures match r.FirstHeld(held, name)
            case Some(c) =>
              exists j :: 0 <= j < |held| && held[j] == c && SameName(r, held[j], name) &&
                forall i :: 0 <= i < j ==> !SameName(r, held[i], name)
            case None => forall c :: c in held ==> !SameName(r, c, name)
  {
    if held != [] && !SameName(r, held[0], name) {
      var rest := held[1..];
      FirstHeldAt(r, rest, name);
      if r.FirstHeld(rest, name).Some? {
        var j :| 0 <= j < |rest| && rest[j] == r.FirstHeld(rest, name).value && SameName(r, rest[j], name) &&
          forall i :: 0 <= i < j ==> !SameName(r, rest[i], name);
        assert held[j + 1] == rest[j];
        assert forall i :: 0 < i < j + 1 ==> held[i] == rest[i - 1];
      }
    }
  }

  lemma CalledIs(r: Resolver, t: Table, prefix: string)
    ensures r.norm(Called(RefOf(t))) == r.norm(prefix) <==> GoesBy(r, t, prefix)
  {
  }

  // The first relation in scope is the first table.
  lemma FirstCalledTable(r: Resolver, tables: seq<Table>, refs: seq<RelationRef>, prefix: string)
    requires |refs| == |tables| && forall i :: 0 <= i < |tables| ==> refs[i] == RefOf(tables[i])
    ensures match r.FirstCalled(refs, prefix)
            case Some(ref) => exists t :: ref == RefOf(t) && FirstGoingBy(r, tables, prefix, t)
            case None => forall t :: !FirstGoingBy(r, tables, prefix, t)
  {
    FirstCalledMeaning(r, refs, prefix);
    forall i | 0 <= i < |tables| ensures r.norm(Called(refs[i])) == r.norm(prefix) <==> GoesBy(r, tables[i], prefix) {
      CalledIs(r, tables[i], prefix);
    }
    if r.FirstCalled(refs, prefix).Some? {
      var i :| 0 <= i < |refs| && refs[i] == r.FirstCalled(refs, prefix).value
          && r.norm(Called(refs[i])) == r.norm(prefix)
        && forall j :: 0 <= j < i ==> r.norm(Called(refs[j])) != r.norm(prefix);
      assert FirstGoingBy(r, tables, prefix, tables[i]);
    }
  }

  lemma OnlyOneIsFirst(r: Resolver, tables: seq<Table>, prefix: string, t: Table, u: Table)
    requires FirstGoingBy(r, tables, prefix, t) && FirstGoingBy(r, tables, prefix, u)
    ensures t == u
  {
  }

  lemma ResolvedIsBecomes(r: Resolver, tables: seq<Table>, refs: seq<RelationRef>, f: Field, g: Field)
    requires |refs| == |tables| && forall i :: 0 <= i < |tables| ==> refs[i] == RefOf(tables[i])
    ensures r.Resolved(f, refs) == Some(g) <==> Becomes(r, tables, f, g)
  {
    if f.schema == "" {
      FirstCalledTable(r, tables, refs, f.table);
      if r.FirstCalled(refs, f.table).Some? {
        var ref := r.FirstCalled(refs, f.table).value;
        var t :| ref == RefOf(t) && FirstGoingBy(r, tables, f.table, t);
        SpelledIs(r, ref, t, f.name, g.name);
        forall u | FirstGoingBy(r, tables, f.table, u) ensures u == t {
          OnlyOneIsFirst(r, tables, f.table, t, u);
        }
      }
    }
  }

  // At every depth the fields and tests of a statement become columns of the
  // first enclosing table their prefix goes by, outermost first; those going by
  // none, or by one that resolved to no schema, are gone.
  lemma ResolvesByTables(r: Resolver, ss: seq<Statement>, path: seq<nat>, g: Field)
    requires VirtualTables.At(ss, path).Some?
    ensures VirtualTables.At(r.CorrelatedIn(ss, []), path).Some?
    ensures var s, s' := VirtualTables.At(ss, path).value, VirtualTables.At(r.CorrelatedIn(ss, []), path).value;
            var tables := TablesAlong(ss, path);
            && (g in s'.fields <==> exists f :: f in s.fields && Becomes(r, tables, f, g))
            && (g in s'.where <==> exists f :: f in s.where && Becomes(r, tables, f, g))
  {
    var s, tables, scope := VirtualTables.At(ss, path).value, TablesAlong(ss, path), ScopeAlong(ss, path);
    ResolvesInEnclosingScope(r, ss, [], path);
    assert [] + scope == scope;
    ScopeOfTables(ss, path);
    EachBecomes(r, tables, scope, s.fields, g);
    EachBecomes(r, tables, scope, s.where, g);
  }

  lemma EachBecomes(r: Resolver, tables: seq<Table>, refs: seq<RelationRef>, fields: seq<Field>, g: Field)
    requires |refs| == |tables| && forall i :: 0 <= i < |tables| ==> refs[i] == RefOf(tables[i])
    ensures g in r.ResolvedEach(fields, refs) <==> exists f :: f in fields && Becomes(r, tables, f, g)
  {
    var step := (f: Field) => r.Resolved(f, refs);
    CompactedMember(step, fields, g);
    forall f ensures step(f) == Some(g) <==> Becomes(r, tables, f, g) {
      ResolvedIsBecomes(r, tables, refs, f, g);
    }
  }

  // ---- Names the statement declared itself ----

  // What each declared name returns, by normalized name.
  type Virtual = map<string, seq<Field>>

  function FirstReturned(r: Resolver, returned: seq<Field>, name: string): Option<Field> {
    if returned == [] then None
    else if r.norm(OutputName(returned[0])) == r.norm(name) then Some(returned[0])
    else FirstReturned(r, returned[1..], name)
  }

  // The column behind a field read from a declared name, under the name the
  // statement calls it by.
  function Through(r: Resolver, virtual: Virtual, f: Field): Option<Field> {
    if r.norm(f.table) !in virtual then Some(f)
    else match FirstReturned(r, virtual[r.norm(f.table)], f.name)
         case None => None
         case Some(source) =>
           var outer := OutputName(f);
           Some(Field(source.name, if r.norm(outer) != r.norm(source.name) then Some(outer) else None,
                      source.table, source.schema))
  }

  function ThroughVirtual(r: Resolver, virtual: Virtual, fields: seq<Field>): seq<Field> {
    if virtual == map[] then fields else Compacted(f => Through(r, virtual, f), fields)
  }

  method RewriteThroughVirtual(r: Resolver, virtual: Virtual, fields: seq<Field>) returns (resolved: seq<Field>)
    ensures resolved == ThroughVirtual(r, virtual, fields)
  {
    if |virtual| == 0 {
      return fields;
    }
    var step := (f: Field) => Through(r, virtual, f);
    resolved := [];
    for i := 0 to |fields|
      invariant resolved == Compacted(step, fields[..i])
    {
      var field := fields[i];
      assert fields[..i + 1] == fields[..i] + [field];
      CompactedConcat(step, fields[..i], [field]);
      if r.norm(field.table) !in virtual {
        resolved := resolved + [field];
        continue;
      }
      var underlying, j := virtual[r.norm(field.table)], 0;
      while j < |underlying| && r.norm(OutputName(underlying[j])) != r.norm(field.name)
        invariant j <= |underlying|
        invariant FirstReturned(r, underlying, field.name) == FirstReturned(r, underlying[j..], field.name)
      {
        assert underlying[j..][1..] == underlying[j + 1..];
        j := j + 1;
      }
      if j < |underlying| {
        var source, outer := underlying[j], OutputName(field);
        var alias := if r.norm(outer) != r.norm(source.name) then Some(outer) else None;
        resolved := resolved + [Field(source.name, alias, source.table, source.schema)];
      }
    }
    assert fields[..|fields|] == fields;
  }

  // A kept field keeps the name its result column comes out under, exactly
  // unless that name is empty and the column behind it has one.
  lemma ThroughKeepsName(r: Resolver, virtual: Virtual, f: Field)
    requires Through(r, virtual, f).Some?
    ensures r.norm(OutputName(Through(r, virtual, f).value)) == r.norm(OutputName(f)) <==>
              r.norm(f.table) !in virtual || OutputName(f) != "" ||
              match FirstReturned(r, virtual[r.norm(f.table)], f.name)
              case Some(source) => r.norm(source.name) == r.norm("")
              case None => true
  {
  }

  // PostgreSQL's own normalisation, with a column returned under an empty
  // quoted name: a field naming nothing comes out as that column.
  lemma ThroughChangesEmptyName(r: Resolver)
    requires forall s: string :: r.norm(s) == QualifiedNames.NormalizeIdentifier(QualifiedNames.PostgreSQL, s)
    ensures var source, f := Field("email", Some("\"\""), "users", "public"), Field("", None, "s", "");
            var virtual: Virtual := map["s" := [source]];
            Through(r, virtual, f) == Some(Field("email", Some(""), "users", "public"))
            && r.norm(OutputName(Through(r, virtual, f).value)) == "email" && r.norm(OutputName(f)) == ""
  {
    var source, f := Field("email", Some("\"\""), "users", "public"), Field("", None, "s", "");
    assert r.norm("s") == "s" && r.norm("\"\"") == "" && r.norm("") == "" && r.norm("email") == "email";
    assert FirstReturned(r, [source], f.name) == Some(source);
  }

  lemma {:induction false} FirstReturnedMeaning(r: Resolver, returned: seq<Field>, name: string)
    ensures match FirstReturned(r, returned, name)
            case Some(source) =>
              exists i :: 0 <= i < |returned| && returned[i] == source && r.norm(OutputName(source)) == r.norm(name) &&
                forall j :: 0 <= j < i ==> r.norm(OutputName(returned[j])) != r.norm(name)
            case None => forall i :: 0 <= i < |returned| ==> r.norm(OutputName(returned[i])) != r.norm(name)
  {
    if returned != [] && r.norm(OutputName(returned[0])) != r.norm(name) {
      var rest := returned[1..];
      FirstReturnedMeaning(r, rest, name);
      match FirstReturned(r, rest, name)
      case None =>
      case Some(source) =>
        var i :| 0 <= i < |rest| && rest[i] == source && r.norm(OutputName(source)) == r.norm(name)
          && forall j :: 0 <= j < i ==> r.norm(OutputName(rest[j])) != r.norm(name);
        assert returned[i + 1] == source;
        forall j | 0 <= j < i + 1 ensures r.norm(OutputName(returned[j])) != r.norm(name) {
          if j > 0 { assert returned[j] == rest[j - 1]; }
        }
    }
  }

  // A field read from a declared name becomes the schema, table and own name of
  // the first column that relation returns under the field's name, and is
  // dropped exactly when it returns none.
  lemma ThroughIsFirstReturned(r: Resolver, virtual: Virtual, f: Field)
    requires r.norm(f.table) in virtual
    ensures var returned := virtual[r.norm(f.table)];
            match Through(r, virtual, f)
            case None => forall i :: 0 <= i < |returned| ==> r.norm(OutputName(returned[i])) != r.norm(f.name)
            case Some(g) =>
              exists i :: 0 <= i < |returned| && r.norm(OutputName(returned[i])) == r.norm(f.name)
                && g.name == returned[i].name && g.table == returned[i].table && g.schema == returned[i].schema
                && forall j :: 0 <= j < i ==> r.norm(OutputName(returned[j])) != r.norm(f.name)
  {
    FirstReturnedMeaning(r, virtual[r.norm(f.table)], f.name);
  }

  // What a field comes out as: its alias, or its name without one.
  function CalledOut(f: Field): string {
    if f.alias.None? || f.alias.value == "" then f.name else f.alias.value
  }

  // g is what a field read from a declared name is rewritten to: the first column
  // returned under its name, keeping what it is called where that differs.
  ghost predicate ReadThrough(r: Resolver, returned: seq<Field>, f: Field, g: Field) {
    exists n :: 0 <= n < |returned| && r.norm(CalledOut(returned[n])) == r.norm(f.name) &&
      g == Field(returned[n].name,
                 if r.norm(CalledOut(f)) == r.norm(returned[n].name) then None else Some(CalledOut(f)),
                 returned[n].table, returned[n].schema) &&
      forall m :: 0 <= m < n ==> r.norm(CalledOut(returned[m])) != r.norm(f.name)
  }

  ghost predicate Rewritten(r: Resolver, virtual: Virtual, f: Field, g: Field) {
    if r.norm(f.table) in virtual then ReadThrough(r, virtual[r.norm(f.table)], f, g) else g == f
  }

  lemma ThroughIs(r: Resolver, virtual: Virtual, f: Field, g: Field)
    ensures Through(r, virtual, f) == Some(g) <==> Rewritten(r, virtual, f, g)
  {
    if r.norm(f.table) in virtual {
      var returned := virtual[r.norm(f.table)];
      FirstReturnedMeaning(r, returned, f.name);
      forall x ensures OutputName(x) == CalledOut(x) {
      }
      if FirstReturned(r, returned, f.name).Some? {
        var n :| 0 <= n < |returned| && returned[n] == FirstReturned(r, returned, f.name).value
          && r.norm(OutputName(returned[n])) == r.norm(f.name)
          && forall j :: 0 <= j < n ==> r.norm(OutputName(returned[j])) != r.norm(f.name);
        assert r.norm(CalledOut(returned[n])) == r.norm(f.name);
      }
    }
  }

  // The rewritten fields are exactly what the fields become.
  lemma ThroughExactly(r: Resolver, virtual: Virtual, fields: seq<Field>, g: Field)
    ensures g in ThroughVirtual(r, virtual, fields) <==> exists f :: f in fields && Rewritten(r, virtual, f, g)
  {
    var step := (f: Field) => Through(r, virtual, f);
    if virtual != map[] {
      CompactedMember(step, fields, g);
    }
    forall f ensures step(f) == Some(g) <==> Rewritten(r, virtual, f, g) {
      ThroughIs(r, virtual, f, g);
    }
  }

  // Rewriting twice is rewriting once when no declared relation returns a
  // column of a declared relation.
  lemma {:induction false} ThroughOnceIsEnough(r: Resolver, virtual: Virtual, fields: seq<Field>)
    requires forall name, g :: name in virtual && g in virtual[name] ==> r.norm(g.table) !in virtual
    ensures ThroughVirtual(r, virtual, ThroughVirtual(r, virtual, fields)) == ThroughVirtual(r, virtual, fields)
  {
    if virtual != map[] && fields != [] {
      var step := (f: Field) => Through(r, virtual, f);
      ThroughOnceIsEnough(r, virtual, fields[1..]);
      var rest := Compacted(step, fields[1..]);
      if Through(r, virtual, fields[0]).Some? {
        var g := Through(r, virtual, fields[0]).value;
        if r.norm(fields[0].table) in virtual {
          FirstReturnedMeaning(r, virtual[r.norm(fields[0].table)], fields[0].name);
        }
        assert Through(r, virtual, g) == Some(g);
        assert ([g] + rest)[1..] == rest;
      }
    }
  }

  // ---- Which statement answers for which declared name ----

  // The relations a statement wrote with a schema.
  function Qualified(r: Resolver, refs: seq<RelationRef>): set<string> {
    set ref | ref in refs && ref.qualified :: r.norm(ref.table)
  }

  // The derived tables in the order the FROM list first names them.
  function DerivedNames(refs: seq<RelationRef>, derived: set<string>): seq<string> {
    if refs == [] then []
    else
      var before, name := DerivedNames(refs[..|refs| - 1], derived), Called(refs[|refs| - 1]);
      if name in derived && name !in before then before + [name] else before
  }

  // The derived tables that have a statement: those of the CTEs come first.
  function Answered(names: seq<string>, ctes: seq<string>, subqueries: seq<Statement>): seq<string> {
    if |ctes| + |names| <= |subqueries| then names
    else if |ctes| >= |subqueries| then []
    else names[..|subqueries| - |ctes|]
  }

  // The last of the names the dialect reads as name.
  function LastCalled(r: Resolver, names: seq<string>, name: string): (j: Option<nat>)
    ensures j.Some? ==> j.value < |names|
  {
    if names == [] then None
    else if r.norm(names[|names| - 1]) == name then Some(|names| - 1)
    else LastCalled(r, names[..|names| - 1], name)
  }

  lemma {:induction false} LastCalledMeaning(r: Resolver, names: seq<string>, name: string)
    ensures match LastCalled(r, names, name)
            case Some(j) => r.norm(names[j]) == name && forall l :: j < l < |names| ==> r.norm(names[l]) != name
            case None => forall l :: 0 <= l < |names| ==> r.norm(names[l]) != name
  {
    if names != [] && r.norm(names[|names| - 1]) != name {
      LastCalledMeaning(r, names[..|names| - 1], name);
    }
  }

  lemma LastCalledMore(r: Resolver, names: seq<string>, x: string, name: string)
    ensures LastCalled(r, names + [x], name) == if r.norm(x) == name then Some(|names|) else LastCalled(r, names, name)
  {
    assert (names + [x])[..|names|] == names;
  }

  // What a declared name returns: a derived table answers for it, the last one
  // of that name; failing that a CTE does, the last one of that name, unless
  // the statement wrote the name with a schema.
  function AnswerFor(r: Resolver, qualified: set<string>, ctes: seq<string>, from: nat, names: seq<string>,
                     subqueries: seq<Statement>, name: string): Option<seq<Field>>
    requires |ctes| <= |subqueries| && (names != [] ==> from + |names| <= |subqueries|)
  {
    match LastCalled(r, names, name)
    case Some(j) => Some(subqueries[from + j].fields)
    case None =>
      match LastCalled(r, ctes, name)
      case Some(i) => if name in qualified then None else Some(subqueries[i].fields)
      case None => None
  }

  ghost predicate Paired(r: Resolver, qualified: set<string>, ctes: seq<string>, from: nat, names: seq<string>,
                         subqueries: seq<Statement>, virtual: Virtual)
    requires |ctes| <= |subqueries| && (names != [] ==> from + |names| <= |subqueries|)
  {
    forall name :: Returned(virtual, name) == AnswerFor(r, qualified, ctes, from, names, subqueries, name)
  }

  function Returned(virtual: Virtual, name: string): Option<seq<Field>> {
    if name in virtual then Some(virtual[name]) else None
  }

  lemma CTEPaired(r: Resolver, qualified: set<string>, ctes: seq<string>, i: nat, from: nat, subqueries: seq<Statement>,
                  virtual: Virtual, virtual': Virtual)
    requires i < |ctes| && i < |subqueries| && Paired(r, qualified, ctes[..i], from, [], subqueries, virtual)
    requires var name := r.norm(ctes[i]);
             virtual' == if name in qualified then virtual else virtual[name := subqueries[i].fields]
    ensures Paired(r, qualified, ctes[..i + 1], from, [], subqueries, virtual')
  {
    var before, after := ctes[..i], ctes[..i + 1];
    assert after == before + [ctes[i]];
    forall name ensures Returned(virtual', name) == AnswerFor(r, qualified, after, from, [], subqueries, name) {
      assert Returned(virtual, name) == AnswerFor(r, qualified, before, from, [], subqueries, name);
      LastCalledMore(r, before, ctes[i], name);
    }
  }

  lemma DerivedPaired(r: Resolver, qualified: set<string>, ctes: seq<string>, from: nat, names: seq<string>, x: string,
                      subqueries: seq<Statement>, virtual: Virtual)
    requires |ctes| <= |subqueries| && from + |names| < |subqueries|
    requires Paired(r, qualified, ctes, from, names, subqueries, virtual)
    ensures Paired(r, qualified, ctes, from, names + [x], subqueries,
        virtual[r.norm(x) := subqueries[from + |names|].fields])
  {
    var virtual' := virtual[r.norm(x) := subqueries[from + |names|].fields];
    forall name ensures Returned(virtual', name) == AnswerFor(r, qualified, ctes, from, names + [x], subqueries, name) {
      assert Returned(virtual, name) == AnswerFor(r, qualified, ctes, from, names, subqueries, name);
      LastCalledMore(r, names, x, name);
    }
  }

  lemma {:induction false} DerivedPrefix(refs: seq<RelationRef>, derived: set<string>, k: nat)
    requires k <= |refs|
    ensures DerivedNames(refs[..k], derived) <= DerivedNames(refs, derived)
  {
    if k == |refs| {
      assert refs[..k] == refs;
    } else {
      var front := refs[..|refs| - 1];
      DerivedPrefix(front, derived, k);
      assert front[..k] == refs[..k];
    }
  }

  lemma DerivedMore(refs: seq<RelationRef>, derived: set<string>, k: nat)
    requires k < |refs|
    ensures var before, name := DerivedNames(refs[..k], derived), Called(refs[k]);
            DerivedNames(refs[..k + 1], derived) ==
              if name in derived && name !in before then before + [name] else before
  {
    assert refs[..k + 1][..k] == refs[..k];
  }

  // The CTEs that have a statement.
  function AnsweredCTEs(ctes: seq<string>, subqueries: seq<Statement>): seq<string> {
    if |ctes| <= |subqueries| then ctes else ctes[..|subqueries|]
  }

  method VirtualFields(r: Resolver, refs: seq<RelationRef>, ctes: seq<string>, derived: set<string>,
      subqueries: seq<Statement>)
    returns (virtual: Virtual)
    ensures Paired(r, Qualified(r, refs), AnsweredCTEs(ctes, subqueries), |ctes|,
                   Answered(DerivedNames(refs, derived), ctes, subqueries), subqueries, virtual)
  {
    virtual := VirtualCTEs(r, Qualified(r, refs), ctes, subqueries);
    var next, seen: set<string> := |ctes|, {};
    ghost var names: seq<string> := [];
    for k := 0 to |refs|
      invariant next == |ctes| + |names| && forall name :: name in seen <==> name in names
      invariant PairedUpTo(r, refs, ctes, derived, subqueries, k, names, virtual)
    {
      var alias := Called(refs[k]);
      if alias !in derived || alias in seen {
        PairedAlready(r, refs, ctes, derived, subqueries, k, names, virtual);
        continue;
      }
      seen := seen + {alias};
      if next >= |subqueries| {
        PairedOut(r, refs, ctes, derived, subqueries, k, names, virtual);
        return;
      }
      PairedNext(r, refs, ctes, derived, subqueries, k, names, virtual);
      virtual := virtual[r.norm(alias) := subqueries[next].fields];
      next, names := next + 1, names + [alias];
    }
    assert refs[..|refs|] == refs;
  }

  // The derived tables among the first k references have their statements.
  ghost predicate PairedUpTo(r: Resolver, refs: seq<RelationRef>, ctes: seq<string>, derived: set<string>,
                             subqueries: seq<Statement>, k: nat, names: seq<string>, virtual: Virtual)
  {
    && k <= |refs| && names == DerivedNames(refs[..k], derived)
    && (names != [] ==> |ctes| + |names| <= |subqueries|)
    && Paired(r, Qualified(r, refs), AnsweredCTEs(ctes, subqueries), |ctes|, names, subqueries, virtual)
  }

  lemma PairedAlready(r: Resolver, refs: seq<RelationRef>, ctes: seq<string>, derived: set<string>,
                      subqueries: seq<Statement>, k: nat, names: seq<string>, virtual: Virtual)
    requires k < |refs| && PairedUpTo(r, refs, ctes, derived, subqueries, k, names, virtual)
    requires Called(refs[k]) !in derived || Called(refs[k]) in names
    ensures PairedUpTo(r, refs, ctes, derived, subqueries, k + 1, names, virtual)
  {
    DerivedMore(refs, derived, k);
  }

  // No statement is left for the next derived table.
  lemma PairedOut(r: Resolver, refs: seq<RelationRef>, ctes: seq<string>, derived: set<string>,
                  subqueries: seq<Statement>, k: nat, names: seq<string>, virtual: Virtual)
    requires k < |refs| && PairedUpTo(r, refs, ctes, derived, subqueries, k, names, virtual)
    requires Called(refs[k]) in derived && Called(refs[k]) !in names && |ctes| + |names| >= |subqueries|
    ensures Paired(r, Qualified(r, refs), AnsweredCTEs(ctes, subqueries), |ctes|,
                   Answered(DerivedNames(refs, derived), ctes, subqueries), subqueries, virtual)
  {
    DerivedMore(refs, derived, k);
    DerivedPrefix(refs, derived, k + 1);
    AnsweredPrefix(DerivedNames(refs, derived), names, ctes, subqueries);
  }

  lemma PairedNext(r: Resolver, refs: seq<RelationRef>, ctes: seq<string>, derived: set<string>,
                   subqueries: seq<Statement>, k: nat, names: seq<string>, virtual: Virtual)
    requires k < |refs| && PairedUpTo(r, refs, ctes, derived, subqueries, k, names, virtual)
    requires Called(refs[k]) in derived && Called(refs[k]) !in names && |ctes| + |names| < |subqueries|
    ensures var alias := Called(refs[k]);
            PairedUpTo(r, refs, ctes, derived, subqueries, k + 1, names + [alias],
                       virtual[r.norm(alias) := subqueries[|ctes| + |names|].fields])
  {
    DerivedMore(refs, derived, k);
    DerivedPaired(r, Qualified(r, refs), AnsweredCTEs(ctes, subqueries), |ctes|, names, Called(refs[k]), subqueries,
                  virtual);
  }

  lemma AnsweredPrefix(all: seq<string>, names: seq<string>, ctes: seq<string>, subqueries: seq<Statement>)
    requires names < all && |ctes| + |names| >= |subqueries| && (names != [] ==> |ctes| + |names| <= |subqueries|)
    ensures Answered(all, ctes, subqueries) == names
  {
    assert all[..|names|] == names;
  }

  method VirtualCTEs(r: Resolver, qualified: set<string>, ctes: seq<string>, subqueries: seq<Statement>)
    returns (virtual: Virtual)
    ensures Paired(r, qualified, AnsweredCTEs(ctes, subqueries), |ctes|, [], subqueries, virtual)
  {
    virtual := map[];
    var idx := 0;
    while idx < |ctes| && idx < |subqueries|
      invariant idx <= |ctes| && idx <= |subqueries|
      invariant Paired(r, qualified, ctes[..idx], |ctes|, [], subqueries, virtual)
    {
      ghost var was := virtual;
      var name := r.norm(ctes[idx]);
      if name !in qualified {
        virtual := virtual[name := subqueries[idx].fields];
      }
      CTEPaired(r, qualified, ctes, idx, |ctes|, subqueries, was, virtual);
      idx := idx + 1;
    }
    assert ctes[..idx] == AnsweredCTEs(ctes, subqueries);
  }

  // The derived tables, each once, in the order the FROM list first mentions them.
  ghost predicate FirstMentions(refs: seq<RelationRef>, derived: set<string>, names: seq<string>) {
    && (forall i, j :: 0 <= i < j < |names| ==> names[i] != names[j] && Before(refs, names[i], names[j]))
    && (forall name :: name in names <==> name in derived && Mentioned(refs, name))
  }

  predicate Mentions(ref: RelationRef, name: string) {
    if ref.alias == "" then ref.table == name else ref.alias == name
  }

  ghost predicate Mentioned(refs: seq<RelationRef>, name: string) {
    exists p :: 0 <= p < |refs| && Mentions(refs[p], name)
  }

  // a is mentioned, and b not before or with it.
  ghost predicate Before(refs: seq<RelationRef>, a: string, b: string) {
    exists p :: 0 <= p < |refs| && Mentions(refs[p], a) && forall q :: 0 <= q <= p ==> !Mentions(refs[q], b)
  }

  lemma {:induction false} DerivedInOrder(refs: seq<RelationRef>, derived: set<string>)
    ensures FirstMentions(refs, derived, DerivedNames(refs, derived))
  {
    if refs != [] {
      var front, last := refs[..|refs| - 1], refs[|refs| - 1];
      DerivedInOrder(front, derived);
      assert refs == front + [last];
      OneMoreMention(front, last, derived, DerivedNames(front, derived));
    }
  }

  lemma OneMoreMention(front: seq<RelationRef>, last: RelationRef, derived: set<string>, names: seq<string>)
    requires FirstMentions(front, derived, names)
    ensures var name := Called(last);
            FirstMentions(front + [last], derived,
                          if name in derived && name !in names then names + [name] else names)
  {
    var refs, name := front + [last], Called(last);
    assert Mentions(last, name);
    forall x ensures Mentioned(refs, x) <==> Mentioned(front, x) || x == name {
      MentionedMore(front, last, x);
    }
    forall a, b | Before(front, a, b) ensures Before(refs, a, b) {
      BeforeMore(front, last, a, b);
    }
    if name in derived && name !in names {
      forall i | 0 <= i < |names| ensures Before(refs, names[i], name) {
        assert names[i] in names;
        BeforeNew(front, last, names[i], name);
      }
    }
  }

  lemma MentionedMore(front: seq<RelationRef>, last: RelationRef, x: string)
    ensures Mentioned(front + [last], x) <==> Mentioned(front, x) || Mentions(last, x)
  {
    var refs := front + [last];
    if p :| 0 <= p < |front| && Mentions(front[p], x) { assert Mentions(refs[p], x); }
    if Mentions(last, x) { assert Mentions(refs[|front|], x); }
  }

  lemma BeforeMore(front: seq<RelationRef>, last: RelationRef, a: string, b: string)
    requires Before(front, a, b)
    ensures Before(front + [last], a, b)
  {
    var refs := front + [last];
    var p :| 0 <= p < |front| && Mentions(front[p], a) && forall q :: 0 <= q <= p ==> !Mentions(front[q], b);
    assert Mentions(refs[p], a) && forall q :: 0 <= q <= p ==> refs[q] == front[q];
  }

  lemma BeforeNew(front: seq<RelationRef>, last: RelationRef, a: string, b: string)
    requires Mentioned(front, a) && !Mentioned(front, b)
    ensures Before(front + [last], a, b)
  {
    var refs := front + [last];
    var p :| 0 <= p < |front| && Mentions(front[p], a);
    assert Mentions(refs[p], a) && forall q :: 0 <= q <= p ==> refs[q] == front[q];
  }

  // A derived table returns what the statement at its place after those of the
  // CTEs does, where no later one that has a statement is read alike.
  lemma DerivedAnswers(r: Resolver, refs: seq<RelationRef>, ctes: seq<string>, derived: set<string>,
                       subqueries: seq<Statement>, virtual: Virtual, j: nat)
    requires Paired(r, Qualified(r, refs), AnsweredCTEs(ctes, subqueries), |ctes|,
                    Answered(DerivedNames(refs, derived), ctes, subqueries), subqueries, virtual)
    requires var names := DerivedNames(refs, derived);
             j < |names| && |ctes| + j < |subqueries| && LastAlike(r, names, j, |subqueries| - |ctes|)
    ensures var name := r.norm(DerivedNames(refs, derived)[j]);
            name in virtual && virtual[name] == subqueries[|ctes| + j].fields
  {
    var names := DerivedNames(refs, derived);
    var answered, name := Answered(names, ctes, subqueries), r.norm(names[j]);
    LastCalledIs(r, names, answered, j, |subqueries| - |ctes|);
    assert Returned(virtual, name) ==
      AnswerFor(r, Qualified(r, refs), AnsweredCTEs(ctes, subqueries), |ctes|, answered, subqueries, name);
  }

  // A CTE returns what the statement at its place does, where no later CTE and
  // no derived table is read alike and the statement wrote no such name with a schema.
  lemma CTEAnswers(r: Resolver, refs: seq<RelationRef>, ctes: seq<string>, derived: set<string>,
                   subqueries: seq<Statement>, virtual: Virtual, i: nat)
    requires Paired(r, Qualified(r, refs), AnsweredCTEs(ctes, subqueries), |ctes|,
                    Answered(DerivedNames(refs, derived), ctes, subqueries), subqueries, virtual)
    requires i < |ctes| && i < |subqueries| && LastAlike(r, ctes, i, |subqueries|)
    requires NoneAlike(r, DerivedNames(refs, derived), r.norm(ctes[i]), |subqueries| - |ctes|)
    ensures var name := r.norm(ctes[i]);
            if exists ref :: ref in refs && ref.qualified && r.norm(ref.table) == name then name !in virtual
            else name in virtual && virtual[name] == subqueries[i].fields
  {
    var names := DerivedNames(refs, derived);
    var answered, answering, name := Answered(names, ctes, subqueries), AnsweredCTEs(ctes, subqueries), r.norm(ctes[i]);
    NoneCalled(r, names, answered, name, |subqueries| - |ctes|);
    LastCalledIs(r, ctes, answering, i, |subqueries|);
    assert Returned(virtual, name) == AnswerFor(r, Qualified(r, refs), answering, |ctes|, answered, subqueries, name);
    assert name in Qualified(r, refs) <==> exists ref :: ref in refs && ref.qualified && r.norm(ref.table) == name;
  }

  // No other name is declared.
  lemma OthersAreUndeclared(r: Resolver, refs: seq<RelationRef>, ctes: seq<string>, derived: set<string>,
                            subqueries: seq<Statement>, virtual: Virtual, name: string)
    requires Paired(r, Qualified(r, refs), AnsweredCTEs(ctes, subqueries), |ctes|,
                    Answered(DerivedNames(refs, derived), ctes, subqueries), subqueries, virtual)
    requires NoneAlike(r, DerivedNames(refs, derived), name, |subqueries| - |ctes|)
    requires NoneAlike(r, ctes, name, |subqueries|)
    ensures name !in virtual
  {
    var names := DerivedNames(refs, derived);
    var answered, answering := Answered(names, ctes, subqueries), AnsweredCTEs(ctes, subqueries);
    NoneCalled(r, names, answered, name, |subqueries| - |ctes|);
    NoneCalled(r, ctes, answering, name, |subqueries|);
    assert Returned(virtual, name) == AnswerFor(r, Qualified(r, refs), answering, |ctes|, answered, subqueries, name);
  }

  // Among the first n names, the dialect reads none after the j-th like it.
  ghost predicate LastAlike(r: Resolver, names: seq<string>, j: nat, n: int)
    requires j < |names|
  {
    forall l :: j < l < |names| && l < n ==> r.norm(names[l]) != r.norm(names[j])
  }

  ghost predicate NoneAlike(r: Resolver, names: seq<string>, name: string, n: int) {
    forall l :: 0 <= l < |names| && l < n ==> r.norm(names[l]) != name
  }

  lemma LastCalledIs(r: Resolver, names: seq<string>, first: seq<string>, j: nat, n: int)
    requires j < |first| <= n && first <= names && LastAlike(r, names, j, n)
    ensures LastCalled(r, first, r.norm(names[j])) == Some(j)
  {
    LastCalledMeaning(r, first, r.norm(names[j]));
    assert forall l :: 0 <= l < |first| ==> first[l] == names[l];
  }

  lemma NoneCalled(r: Resolver, names: seq<string>, first: seq<string>, name: string, n: int)
    requires first <= names && (first == [] || |first| <= n) && NoneAlike(r, names, name, n)
    ensures LastCalled(r, first, name).None?
  {
    LastCalledMeaning(r, first, name);
    assert forall l :: 0 <= l < |first| ==> first[l] == names[l];
  }

  // A relation written with a schema is never read as a CTE, only as a derived
  // table of that name.
  lemma QualifiedStaysReal(r: Resolver, refs: seq<RelationRef>, ctes: seq<string>, derived: set<string>,
                           subqueries: seq<Statement>, virtual: Virtual, ref: RelationRef)
    requires Paired(r, Qualified(r, refs), AnsweredCTEs(ctes, subqueries), |ctes|,
                    Answered(DerivedNames(refs, derived), ctes, subqueries), subqueries, virtual)
    requires ref in refs && ref.qualified && r.norm(ref.table) in virtual
    ensures exists other :: other in refs && Called(other) in derived && r.norm(Called(other)) == r.norm(ref.table)
  {
    var names := DerivedNames(refs, derived);
    var answered := Answered(names, ctes, subqueries);
    var name := r.norm(ref.table);
    assert name in Qualified(r, refs);
    assert Returned(virtual, name) ==
      AnswerFor(r, Qualified(r, refs), AnsweredCTEs(ctes, subqueries), |ctes|, answered, subqueries, name);
    LastCalledMeaning(r, answered, name);
    var j := LastCalled(r, answered, name).value;
    assert answered[j] == names[j];
    DerivedMember(refs, derived, names[j]);
  }

  lemma {:induction false} DerivedMember(refs: seq<RelationRef>, derived: set<string>, name: string)
    requires name in DerivedNames(refs, derived)
    ensures exists other :: other in refs && Called(other) == name && name in derived
  {
    var front, last := refs[..|refs| - 1], refs[|refs| - 1];
    if name in DerivedNames(front, derived) {
      DerivedMember(front, derived, name);
      var other :| other in front && Called(other) == name && name in derived;
      assert other in refs;
    } else {
      assert last in refs && Called(last) == name;
    }
  }
}
