// The permission check over a statement tree: the rights each statement needs,
// and the early-exit walk that asks for them.
module StatementChecks {
  import opened Collections
  import opened Statements
  import opened Permissions

  function ActionOf(op: Operation): string {
    match op
    case Transaction => NONE
    case Select => SELECT
    case Insert => INSERT
    case Update => UPDATE
    case Delete => DELETE
    case Other(_) => MANAGE
  }

  predicate IsWrite(op: Operation) {
    op.Insert? || op.Update? || op.Delete?
  }

  // A statement checked table by table.
  predicate ActsOnRows(s: Statement) {
    !s.unreadable && (s.op.Select? || IsWrite(s.op))
  }

  // A read that named no column of its own takes the columns the statement
  // above it resolved to its tables.
  function ScopeBareRead(read: Statement, tested: seq<Field>): Statement {
    if tested == [] || read.fields != [] || read.where != [] then read
    else read.(where := Filter((f: Field) => OwnsField(read, f), tested))
  }

  // Every column the nested reads of a statement name, at any depth. Only a
  // select contributes its projection.
  function NestedFields(s: Statement): seq<Field> {
    NestedFieldsIn(s.subqueries) + NestedFieldsIn(s.also)
  }

  function NestedFieldsIn(ss: seq<Statement>): seq<Field> {
    if ss == [] then []
    else NamedBy(ss[0]) + (NestedFields(ss[0]) + NestedFieldsIn(ss[1..]))
  }

  function NamedBy(s: Statement): seq<Field> {
    if s.op.Select? then s.fields + s.where else s.where
  }

  // The resolved columns nested statements name that none of their own relations holds.
  function ReachingOut(s: Statement): seq<Field> {
    ReachingOutIn(s.subqueries) + ReachingOutIn(s.also)
  }

  function ReachingOutIn(ss: seq<Statement>): seq<Field> {
    if ss == [] then []
    else Foreign(ss[0]) + (ReachingOut(ss[0]) + ReachingOutIn(ss[1..]))
  }

  function Foreign(s: Statement): seq<Field> {
    Filter((f: Field) => f.schema != "" && f.table != "" && !OwnsField(s, f), s.fields + s.where)
  }

  function Scoping(s: Statement): seq<Field> {
    if s.op.Select? then s.fields + s.where else s.fields
  }

  function NestedScoping(s: Statement): seq<Field> {
    if s.op.Select? then NestedFields(s) else []
  }

  function Tested(s: Statement): seq<Field> {
    s.where + ReachingOut(s)
  }

  predicate Names(fields: seq<Field>, t: Table) {
    exists f :: f in fields && FieldOf(f, t)
  }

  function ColumnRight(t: Table, f: Field, action: string): Right {
    On(t.schema, t.name, f.name, action)
  }

  ghost predicate AsksColumn(fields: seq<Field>, t: Table, action: string, r: Right) {
    exists f :: f in fields && FieldOf(f, t) && r == ColumnRight(t, f, action)
  }

  // The rights one table of a statement needs: its scoping columns, or failing
  // those the columns nested reads name, or failing those the whole table; and
  // select on every column of it that is tested.
  ghost predicate TableRight(s: Statement, t: Table, r: Right) {
    var action := ActionOf(s.op);
    if t.schema == "" then r == Nobody
    else
      || AsksColumn(Scoping(s), t, action, r)
      || (!Names(Scoping(s), t) && AsksColumn(NestedScoping(s), t, action, r))
      || (!Names(Scoping(s), t) && !Names(NestedScoping(s), t) && r == On(t.schema, t.name, "", action))
      || AsksColumn(Tested(s), t, SELECT, r)
  }

  const FLOOR := [MANAGE, SELECT, INSERT, UPDATE, DELETE]

  ghost predicate OwnRight(s: Statement, r: Right) {
    if s.unreadable then r.Anywhere? && r.action in FLOOR
    else if s.op.Transaction? then false
    else if s.op.Other? then r == On("", "", "", MANAGE)
    else exists t :: t in s.tables && TableRight(s, t, r)
  }

  // Everything a statement needs, the statements nested in it included, where
  // above is what the enclosing statement tested.
  ghost predicate Needs(s: Statement, above: seq<Field>, r: Right) {
    var n := ScopeBareRead(s, above);
    || OwnRight(n, r)
    || (exists i :: 0 <= i < |s.subqueries| && Needs(s.subqueries[i], n.where, r))
    || (exists i :: 0 <= i < |s.also| && Needs(s.also[i], n.where, r))
  }

  ghost predicate AllHold(idx: Compiled, ds: string, s: Statement, above: seq<Field>) {
    forall r :: Needs(s, above, r) ==> Holds(idx, ds, r)
  }

  ghost predicate Accepts(idx: Compiled, ds: string, statements: seq<Statement>) {
    IsManaged(idx, ds) ==> forall s :: s in statements ==> AllHold(idx, ds, s, [])
  }

  lemma ScopedNeeds(s: Statement, above: seq<Field>)
    ensures forall r :: Needs(ScopeBareRead(s, above), [], r) <==> Needs(s, above, r)
  {
    var n := ScopeBareRead(s, above);
    assert ScopeBareRead(n, []) == n && n.subqueries == s.subqueries && n.also == s.also;
    forall r ensures Needs(n, [], r) <==> Needs(s, above, r) {
    }
  }

  // ---- The walk ----

  method ScopeRead(read: Statement, tested: seq<Field>) returns (scoped: Statement)
    ensures scoped == ScopeBareRead(read, tested)
  {
    scoped := read;
    if |tested| == 0 || |read.fields| > 0 || |read.where| > 0 {
      return;
    }
    var owned := (f: Field) => OwnsField(read, f);
    var where: seq<Field> := [];
    for i := 0 to |tested|
      invariant where == Filter(owned, tested[..i])
    {
      var field, j := tested[i], 0;
      while j < |read.tables| && !FieldOf(field, read.tables[j])
        invariant j <= |read.tables|
        invariant forall l :: 0 <= l < j ==> !FieldOf(field, read.tables[l])
      {
        j := j + 1;
      }
      assert OwnsField(read, field) <==> j < |read.tables|;
      assert tested[..i + 1] == tested[..i] + [field];
      FilterConcat(owned, tested[..i], [field]);
      if j < |read.tables| {
        where := where + [field];
      }
    }
    assert tested[..|tested|] == tested;
    scoped := read.(where := where);
  }

  lemma FieldsJoin(a: seq<Field>, b: seq<Field>, c: seq<Field>)
    ensures (a + b) + c == a + (b + c)
  {
  }

  method NestedFieldsInto(s: Statement, into: seq<Field>) returns (fields: seq<Field>)
    ensures fields == into + NestedFields(s)
    decreases s, 1
  {
    fields := NestedFieldsOf(s.subqueries, into);
    fields := NestedFieldsOf(s.also, fields);
    FieldsJoin(into, NestedFieldsIn(s.subqueries), NestedFieldsIn(s.also));
  }

  lemma NestedFieldsFrom(ss: seq<Statement>, i: nat, fields: seq<Field>)
    requires i < |ss|
    ensures fields + NestedFieldsIn(ss[i..]) ==
            ((fields + NamedBy(ss[i])) + NestedFields(ss[i])) + NestedFieldsIn(ss[i + 1..])
  {
    assert ss[i..][0] == ss[i] && ss[i..][1..] == ss[i + 1..];
  }

  method NestedFieldsOf(ss: seq<Statement>, into: seq<Field>) returns (fields: seq<Field>)
    ensures fields == into + NestedFieldsIn(ss)
    decreases ss, 0
  {
    fields := into;
    for i := 0 to |ss|
      invariant fields + NestedFieldsIn(ss[i..]) == into + NestedFieldsIn(ss)
    {
      var nested := ss[i];
      NestedFieldsFrom(ss, i, fields);
      ghost var was := fields;
      if nested.op.Select? {
        fields := fields + nested.fields;
      }
      fields := fields + nested.where;
      assert fields == was + NamedBy(nested);
      fields := NestedFieldsInto(nested, fields);
    }
    assert ss[|ss|..] == [];
  }

  method ReachingOutInto(s: Statement, into: seq<Field>) returns (fields: seq<Field>)
    ensures fields == into + ReachingOut(s)
    decreases s, 1
  {
    fields := ReachingOutOf(s.subqueries, into);
    fields := ReachingOutOf(s.also, fields);
    FieldsJoin(into, ReachingOutIn(s.subqueries), ReachingOutIn(s.also));
  }

  lemma ReachingOutFrom(ss: seq<Statement>, i: nat, fields: seq<Field>)
    requires i < |ss|
    ensures fields + ReachingOutIn(ss[i..]) ==
            ((fields + Foreign(ss[i])) + ReachingOut(ss[i])) + ReachingOutIn(ss[i + 1..])
  {
    assert ss[i..][0] == ss[i] && ss[i..][1..] == ss[i + 1..];
  }

  method ReachingOutOf(ss: seq<Statement>, into: seq<Field>) returns (fields: seq<Field>)
    ensures fields == into + ReachingOutIn(ss)
    decreases ss, 0
  {
    fields := into;
    for i := 0 to |ss|
      invariant fields + ReachingOutIn(ss[i..]) == into + ReachingOutIn(ss)
    {
      ReachingOutFrom(ss, i, fields);
      fields := ForeignInto(ss[i], fields);
      fields := ReachingOutInto(ss[i], fields);
    }
    assert ss[|ss|..] == [];
  }

  method ForeignInto(s: Statement, into: seq<Field>) returns (fields: seq<Field>)
    ensures fields == into + Foreign(s)
  {
    fields := into;
    var named := s.fields + s.where;
    var foreign := (f: Field) => f.schema != "" && f.table != "" && !OwnsField(s, f);
    for i := 0 to |named|
      invariant fields == into + Filter(foreign, named[..i])
    {
      var field := named[i];
      assert named[..i + 1] == named[..i] + [field];
      FilterConcat(foreign, named[..i], [field]);
      if field.schema == "" || field.table == "" || OwnsField(s, field) {
        continue;
      }
      fields := fields + [field];
    }
    assert named[..|named|] == named;
  }

  // Asks for a right on every field of the table, stopping at the first refusal.
  method CheckColumns(fields: seq<Field>, t: Table, action: string, ds: string, idx: Compiled)
    returns (named: bool, ok: bool)
    ensures ok <==> forall r :: AsksColumn(fields, t, action, r) ==> Holds(idx, ds, r)
    ensures ok ==> (named <==> Names(fields, t))
  {
    named, ok := false, true;
    for i := 0 to |fields|
      invariant ok && (named <==> exists j :: 0 <= j < i && FieldOf(fields[j], t))
      invariant forall j :: 0 <= j < i && FieldOf(fields[j], t) ==> Holds(idx, ds, ColumnRight(t, fields[j], action))
    {
      if !FieldOf(fields[i], t) {
        continue;
      }
      named := true;
      var allowed, _ := Decide(idx, ds, t.schema, t.name, fields[i].name, action);
      if !allowed {
        assert AsksColumn(fields, t, action, ColumnRight(t, fields[i], action));
        return named, false;
      }
    }
  }

  method CheckTable(s: Statement, t: Table, nested: seq<Field>, tested: seq<Field>, ds: string, idx: Compiled)
    returns (ok: bool)
    requires nested == NestedScoping(s) && tested == Tested(s)
    ensures ok <==> forall r :: TableRight(s, t, r) ==> Holds(idx, ds, r)
  {
    if t.schema == "" {
      assert TableRight(s, t, Nobody);
      return false;
    }
    var action := ActionOf(s.op);
    var named;
    named, ok := CheckColumns(Scoping(s), t, action, ds, idx);
    if !ok { return; }
    if !named {
      named, ok := CheckColumns(nested, t, action, ds, idx);
      if !ok { return; }
    }
    if !named {
      assert TableRight(s, t, On(t.schema, t.name, "", action));
      var role;
      ok, role := Decide(idx, ds, t.schema, t.name, "", action);
      if !ok { return; }
    }
    named, ok := CheckColumns(tested, t, SELECT, ds, idx);
  }

  method CheckTables(s: Statement, ds: string, idx: Compiled) returns (ok: bool)
    ensures ok <==> forall t, r :: t in s.tables && TableRight(s, t, r) ==> Holds(idx, ds, r)
  {
    var reaching := ReachingOutInto(s, []);
    var tested := s.where + reaching;
    var nested: seq<Field> := [];
    if s.op.Select? {
      nested := NestedFieldsInto(s, []);
    }
    ok := true;
    for i := 0 to |s.tables|
      invariant ok && forall j, r :: 0 <= j < i && TableRight(s, s.tables[j], r) ==> Holds(idx, ds, r)
    {
      ok := CheckTable(s, s.tables[i], nested, tested, ds, idx);
      if !ok { return; }
    }
  }

  method CheckUnreadable(ds: string, idx: Compiled) returns (ok: bool)
    ensures ok <==> forall action :: action in FLOOR ==> Holds(idx, ds, Anywhere(action))
  {
    ok := true;
    for i := 0 to |FLOOR|
      invariant ok && forall j :: 0 <= j < i ==> Holds(idx, ds, Anywhere(FLOOR[j]))
    {
      assert FLOOR[i] in FLOOR;
      if DeniedAnywhere(idx, ds, FLOOR[i]) {
        return false;
      }
      var allowed, _ := Decide(idx, ds, "", "", "", FLOOR[i]);
      if !allowed {
        return false;
      }
    }
  }

  method CheckOwn(s: Statement, ds: string, idx: Compiled) returns (ok: bool)
    ensures ok <==> forall r :: OwnRight(s, r) ==> Holds(idx, ds, r)
  {
    if s.unreadable {
      ok := CheckUnreadable(ds, idx);
      assert forall action :: action in FLOOR ==> OwnRight(s, Anywhere(action));
    } else if ActionOf(s.op) == NONE {
      ok := true;
    } else if ActionOf(s.op) == MANAGE {
      assert OwnRight(s, On("", "", "", MANAGE));
      var role;
      ok, role := Decide(idx, ds, "", "", "", MANAGE);
    } else {
      ok := CheckTables(s, ds, idx);
    }
  }

  method CheckStatement(s: Statement, ds: string, idx: Compiled) returns (ok: bool)
    ensures ok <==> AllHold(idx, ds, s, [])
    decreases Size(s)
  {
    assert ScopeBareRead(s, []) == s;
    ok := CheckOwn(s, ds, idx);
    if !ok { return; }
    ok := CheckNested(s.subqueries, s.where, Size(s), ds, idx);
    if !ok { return; }
    ok := CheckNested(s.also, s.where, Size(s), ds, idx);
  }

  method CheckNested(ss: seq<Statement>, tested: seq<Field>, ghost size: nat, ds: string, idx: Compiled)
    returns (ok: bool)
    requires Sizes(ss) < size
    ensures ok <==> forall i :: 0 <= i < |ss| ==> AllHold(idx, ds, ss[i], tested)
    decreases size, 0
  {
    ok := true;
    for i := 0 to |ss|
      invariant ok && forall j :: 0 <= j < i ==> AllHold(idx, ds, ss[j], tested)
    {
      var scoped := ScopeRead(ss[i], tested);
      SizeOfNested(ss, i);
      ScopedNeeds(ss[i], tested);
      ok := CheckStatement(scoped, ds, idx);
      if !ok { return; }
    }
  }

  method CheckQueryPermissions(statements: seq<Statement>, ds: string, idx: Compiled) returns (ok: bool)
    ensures ok <==> Accepts(idx, ds, statements)
  {
    if !IsManaged(idx, ds) {
      return true;
    }
    ok := true;
    for i := 0 to |statements|
      invariant ok && forall j :: 0 <= j < i ==> AllHold(idx, ds, statements[j], [])
    {
      ok := CheckStatement(statements[i], ds, idx);
      if !ok { return; }
    }
  }
}
