// Scoping the tables of a select by what nested reads name: when it asks nothing
// the statements would not ask for without it.
module NestedScoping {
  import opened Collections
  import opened Statements
  import opened Permissions
  import opened StatementChecks
  import opened StatementRights
  import opened StatementScoping

  // TableRight without asking for the columns nested reads name.
  ghost predicate TableRightOwn(s: Statement, t: Table, r: Right) {
    var action := ActionOf(s.op);
    if t.schema == "" then r == Nobody
    else
      || AsksColumn(Scoping(s), t, action, r)
      || (!Names(Scoping(s), t) && !Names(NestedScoping(s), t) && r == On(t.schema, t.name, "", action))
      || AsksColumn(Tested(s), t, SELECT, r)
  }

  ghost predicate OwnRightOwn(s: Statement, r: Right) {
    if ActsOnRows(s) then exists t :: t in s.tables && TableRightOwn(s, t, r) else OwnRight(s, r)
  }

  ghost predicate NeedsOwn(s: Statement, above: seq<Field>, r: Right) {
    var n := ScopeBareRead(s, above);
    || OwnRightOwn(n, r)
    || (exists i :: 0 <= i < |s.subqueries| && NeedsOwn(s.subqueries[i], n.where, r))
    || (exists i :: 0 <= i < |s.also| && NeedsOwn(s.also[i], n.where, r))
  }

  ghost predicate AllHoldOwn(idx: Compiled, ds: string, s: Statement, above: seq<Field>) {
    forall r :: NeedsOwn(s, above, r) ==> Holds(idx, ds, r)
  }

  // Every table of the tree is named.
  ghost predicate Named(s: Statement) {
    && (forall t :: t in s.tables ==> t.name != "")
    && (forall i :: 0 <= i < |s.subqueries| ==> Named(s.subqueries[i]))
    && (forall i :: 0 <= i < |s.also| ==> Named(s.also[i]))
  }

  // What the unclassified statements nested in one test of their own relations.
  function UnclassifiedTests(s: Statement): seq<Field> {
    UnclassifiedTestsIn(s.subqueries) + UnclassifiedTestsIn(s.also)
  }

  function UnclassifiedTestsIn(ss: seq<Statement>): seq<Field> {
    if ss == [] then []
    else OwnTests(ss[0]) + (UnclassifiedTests(ss[0]) + UnclassifiedTestsIn(ss[1..]))
  }

  function OwnTests(s: Statement): seq<Field> {
    if Checked(s) then [] else Filter((f: Field) => OwnsField(s, f), s.where)
  }

  // A select of the tree asks for r because an unclassified statement below it
  // tests that column, the select naming no column of the table itself.
  ghost predicate ScopedByUnclassified(s: Statement, above: seq<Field>, r: Right) {
    var n := ScopeBareRead(s, above);
    || (ActsOnRows(n) && n.op.Select? &&
          exists t :: t in n.tables && !Names(Scoping(n), t) && AsksColumn(UnclassifiedTests(n), t, SELECT, r))
    || (exists i :: 0 <= i < |s.subqueries| && ScopedByUnclassified(s.subqueries[i], n.where, r))
    || (exists i :: 0 <= i < |s.also| && ScopedByUnclassified(s.also[i], n.where, r))
  }

  // r is asked for without nested scoping, or covered by what is, or what is
  // asked for nobody holds.
  ghost predicate Settled(s: Statement, above: seq<Field>, r: Right) {
    || NeedsOwn(s, above, r)
    || (r.On? && r.action == SELECT && NeedsOwn(s, above, Anywhere(SELECT)))
    || NeedsOwn(s, above, Nobody)
  }

  lemma NestedSettles(s: Statement, above: seq<Field>, nested: Statement, r: Right)
    requires nested in s.subqueries || nested in s.also
    requires Settled(nested, ScopeBareRead(s, above).where, r)
    ensures Settled(s, above, r)
  {
    if nested in s.subqueries {
      var i :| 0 <= i < |s.subqueries| && s.subqueries[i] == nested;
    } else {
      var i :| 0 <= i < |s.also| && s.also[i] == nested;
    }
  }

  // The checked statement that named a column of its own table asks for it itself.
  lemma NamedIsSettled(s: Statement, above: seq<Field>, f: Field)
    requires f in NamedBy(s) && OwnsField(s, f) && Checked(s)
    ensures Settled(s, above, On(f.schema, f.table, f.name, SELECT))
  {
    var n, r := ScopeBareRead(s, above), On(f.schema, f.table, f.name, SELECT);
    assert n == s;
    if s.unreadable {
      assert FLOOR[1] == SELECT;
      assert OwnRightOwn(n, Anywhere(SELECT));
    } else {
      var t :| t in s.tables && FieldOf(f, t);
      if t.schema == "" {
        assert TableRightOwn(n, t, Nobody);
        assert OwnRightOwn(n, Nobody);
      } else {
        NamedIsAsked(n, t, f);
      }
    }
  }

  lemma NamedIsAsked(n: Statement, t: Table, f: Field)
    requires ActsOnRows(n) && f in NamedBy(n) && t in n.tables && FieldOf(f, t) && t.schema != ""
    ensures OwnRightOwn(n, On(f.schema, f.table, f.name, SELECT))
  {
    var r := On(f.schema, f.table, f.name, SELECT);
    assert r == ColumnRight(t, f, SELECT);
    if n.op.Select? {
      assert AsksColumn(Scoping(n), t, SELECT, r);
    } else {
      assert f in Tested(n);
      assert AsksColumn(Tested(n), t, SELECT, r);
    }
    assert TableRightOwn(n, t, r);
  }

  // A column a nested read names is settled there, or reaches out to the
  // statement above, or is tested by a statement nobody classified.
  lemma {:induction false} NestedIsSettled(ss: seq<Statement>, above: seq<Field>, f: Field)
    requires f in NestedFieldsIn(ss) && f.schema != "" && f.table != ""
    ensures (exists s :: s in ss && Settled(s, above, On(f.schema, f.table, f.name, SELECT)))
            || f in ReachingOutIn(ss) || f in UnclassifiedTestsIn(ss)
    decreases ss, 0
  {
    var s := ss[0];
    assert s in ss;
    if f in NamedBy(s) {
      NamedSomewhere(s, above, f);
      if f in Foreign(s) { ReachingFrom(ss, s, f); }
    } else if f in NestedFields(s) {
      NestedOfIsSettled(s, above, f);
      if f in ReachingOut(s) { ReachingFrom(ss, s, f); }
    } else {
      var rest := ss[1..];
      NestedIsSettled(rest, above, f);
      assert forall q :: q in rest ==> q in ss;
    }
  }

  lemma NamedSomewhere(s: Statement, above: seq<Field>, f: Field)
    requires f in NamedBy(s) && f.schema != "" && f.table != ""
    ensures Settled(s, above, On(f.schema, f.table, f.name, SELECT)) || f in Foreign(s) || f in OwnTests(s)
  {
    if !OwnsField(s, f) {
      FilterMember((g: Field) => g.schema != "" && g.table != "" && !OwnsField(s, g), s.fields + s.where, f);
    } else if Checked(s) {
      NamedIsSettled(s, above, f);
    } else {
      FilterMember((g: Field) => OwnsField(s, g), s.where, f);
    }
  }

  lemma {:induction false} NestedOfIsSettled(s: Statement, above: seq<Field>, f: Field)
    requires f in NestedFields(s) && f.schema != "" && f.table != ""
    ensures Settled(s, above, On(f.schema, f.table, f.name, SELECT)) || f in ReachingOut(s) || f in UnclassifiedTests(s)
    decreases s, 1
  {
    var n, r := ScopeBareRead(s, above), On(f.schema, f.table, f.name, SELECT);
    var ss := if f in NestedFieldsIn(s.subqueries) then s.subqueries else s.also;
    if f in NestedFieldsIn(s.subqueries) {
      NestedIsSettled(s.subqueries, n.where, f);
    } else {
      NestedIsSettled(s.also, n.where, f);
    }
    if q :| q in ss && Settled(q, n.where, r) {
      NestedSettles(s, above, q, r);
    }
  }

  lemma OwnRightSettled(s: Statement, above: seq<Field>, r: Right)
    requires Named(s) && OwnRight(ScopeBareRead(s, above), r)
    ensures Settled(s, above, r) || ScopedByUnclassified(s, above, r)
  {
    var n := ScopeBareRead(s, above);
    if !OwnRightOwn(n, r) {
      var t :| t in n.tables && TableRight(n, t, r);
      assert !TableRightOwn(n, t, r);
      var f :| f in NestedScoping(n) && FieldOf(f, t) && r == ColumnRight(t, f, ActionOf(n.op));
      assert NestedFields(n) == NestedFields(s) && ReachingOut(n) == ReachingOut(s);
      assert UnclassifiedTests(n) == UnclassifiedTests(s);
      NestedOfIsSettled(s, above, f);
      assert f in ReachingOut(n) ==> AsksColumn(Tested(n), t, SELECT, r);
      assert f in UnclassifiedTests(n) ==> AsksColumn(UnclassifiedTests(n), t, SELECT, r);
    }
  }

  // Every right the check asks for is settled without nested scoping, except
  // what it asks for on account of an unclassified statement.
  lemma {:induction false} NeedsSettled(s: Statement, above: seq<Field>, r: Right)
    requires Named(s) && Needs(s, above, r)
    ensures Settled(s, above, r) || ScopedByUnclassified(s, above, r)
  {
    var n := ScopeBareRead(s, above);
    if i :| 0 <= i < |s.subqueries| && Needs(s.subqueries[i], n.where, r) {
      NeedsSettled(s.subqueries[i], n.where, r);
      if Settled(s.subqueries[i], n.where, r) { NestedSettles(s, above, s.subqueries[i], r); }
    } else if i :| 0 <= i < |s.also| && Needs(s.also[i], n.where, r) {
      NeedsSettled(s.also[i], n.where, r);
      if Settled(s.also[i], n.where, r) { NestedSettles(s, above, s.also[i], r); }
    } else {
      OwnRightSettled(s, above, r);
    }
  }

  lemma SettledHolds(idx: Compiled, ds: string, s: Statement, above: seq<Field>, r: Right)
    requires AllHoldOwn(idx, ds, s, above) && Settled(s, above, r)
    ensures Holds(idx, ds, r)
  {
    if !NeedsOwn(s, above, r) {
      assert !Holds(idx, ds, Nobody);
      AnywhereCovers(idx, ds, r.schema, r.table, r.column, SELECT);
    }
  }

  lemma OwnAcceptanceDecides(idx: Compiled, ds: string, s: Statement, above: seq<Field>)
    requires Named(s) && forall r :: ScopedByUnclassified(s, above, r) ==> Settled(s, above, r)
    ensures AllHold(idx, ds, s, above) <==> AllHoldOwn(idx, ds, s, above)
  {
    if AllHoldOwn(idx, ds, s, above) {
      forall r | Needs(s, above, r) ensures Holds(idx, ds, r) {
        NeedsSettled(s, above, r);
        SettledHolds(idx, ds, s, above, r);
      }
    } else {
      var r :| NeedsOwn(s, above, r) && !Holds(idx, ds, r);
      OwnNeedsAreNeeds(s, above, r);
    }
  }

  // A statement that is not checked by table tests nothing.
  ghost predicate Plain(s: Statement) {
    && (!Checked(s) ==> s.where == [])
    && (forall i :: 0 <= i < |s.subqueries| ==> Plain(s.subqueries[i]))
    && (forall i :: 0 <= i < |s.also| ==> Plain(s.also[i]))
  }

  lemma {:induction false} PlainTestsNothing(ss: seq<Statement>)
    requires forall i :: 0 <= i < |ss| ==> Plain(ss[i])
    ensures UnclassifiedTestsIn(ss) == []
  {
    if ss != [] {
      assert ss[0] in ss;
      PlainTestsNothing(ss[0].subqueries);
      PlainTestsNothing(ss[0].also);
      PlainTestsNothing(ss[1..]);
    }
  }

  lemma {:induction false} PlainIsNotScoped(s: Statement, above: seq<Field>, r: Right)
    requires Plain(s)
    ensures !ScopedByUnclassified(s, above, r)
  {
    var n := ScopeBareRead(s, above);
    PlainTestsNothing(s.subqueries);
    PlainTestsNothing(s.also);
    assert UnclassifiedTests(n) == [];
    forall i | 0 <= i < |s.subqueries| ensures !ScopedByUnclassified(s.subqueries[i], n.where, r) {
      PlainIsNotScoped(s.subqueries[i], n.where, r);
    }
    forall i | 0 <= i < |s.also| ensures !ScopedByUnclassified(s.also[i], n.where, r) {
      PlainIsNotScoped(s.also[i], n.where, r);
    }
  }

  // Dropping the columns asked for because a nested read named them changes no
  // decision where unclassified statements test nothing.
  lemma NestedScopingAsksNothingExtra(idx: Compiled, ds: string, s: Statement, above: seq<Field>)
    requires Named(s) && Plain(s)
    ensures AllHold(idx, ds, s, above) <==> AllHoldOwn(idx, ds, s, above)
  {
    forall r ensures !ScopedByUnclassified(s, above, r) {
      PlainIsNotScoped(s, above, r);
    }
    OwnAcceptanceDecides(idx, ds, s, above);
  }

  lemma {:induction false} OwnNeedsAreNeeds(s: Statement, above: seq<Field>, r: Right)
    requires NeedsOwn(s, above, r)
    ensures Needs(s, above, r)
  {
    var n := ScopeBareRead(s, above);
    if i :| 0 <= i < |s.subqueries| && NeedsOwn(s.subqueries[i], n.where, r) {
      OwnNeedsAreNeeds(s.subqueries[i], n.where, r);
    } else if i :| 0 <= i < |s.also| && NeedsOwn(s.also[i], n.where, r) {
      OwnNeedsAreNeeds(s.also[i], n.where, r);
    } else if ActsOnRows(n) {
      var t :| t in n.tables && TableRightOwn(n, t, r);
      assert TableRight(n, t, r);
      assert OwnRight(n, r);
    }
  }

  // Exactly when the column a nested statement names is asked for by that
  // statement's own check or handed up as reaching out of it.
  lemma NamedIsAskedExactly(s: Statement, above: seq<Field>, f: Field)
    requires f in NamedBy(s) && (forall t :: t in s.tables ==> t.schema != "")
    ensures var n := ScopeBareRead(s, above);
            (OwnRightOwn(n, On(f.schema, f.table, f.name, SELECT)) || OwnRightOwn(n, Anywhere(SELECT))
                || f in Foreign(s))
            <==> s.unreadable || if OwnsField(s, f) then ActsOnRows(s) else f.schema != "" && f.table != ""
  {
    var n, r := ScopeBareRead(s, above), On(f.schema, f.table, f.name, SELECT);
    assert n == s && FLOOR[1] == SELECT;
    FilterMember((g: Field) => g.schema != "" && g.table != "" && !OwnsField(s, g), s.fields + s.where, f);
    if OwnsField(s, f) && ActsOnRows(s) {
      var t :| t in s.tables && FieldOf(f, t);
      NamedIsAsked(n, t, f);
    }
  }

  // A statement nobody classified, reading a column of its table, under a select of that table.
  const UNCLASSIFIED := Statement(Other("unknown"), [], [Table("t", "s", None, false)],
                                  [Field("c", None, "t", "s")], [], [], false, false)
  const ABOVE := Statement(Select, [], [Table("t", "s", None, false)], [], [UNCLASSIFIED], [], false, false)
  const MANAGER := Compiled(map[], map[Key("d", "", "", "", MANAGE) := "manager"], {"d"}, false)

  // Outside plain trees nested scoping can ask for more: nobody but the select
  // above asks for a column an unclassified statement tests.
  lemma UnclassifiedAsksMore()
    ensures !Plain(ABOVE)
    ensures AllHoldOwn(MANAGER, "d", ABOVE, []) && !AllHold(MANAGER, "d", ABOVE, [])
  {
    var s, u, t, f := ABOVE, UNCLASSIFIED, ABOVE.tables[0], UNCLASSIFIED.where[0];
    var manage := On("", "", "", MANAGE);
    assert s.subqueries[0] == u && ScopeBareRead(s, []) == s && ScopeBareRead(u, []) == u;
    assert NestedFieldsIn([u]) == NamedBy(u) + (NestedFields(u) + NestedFieldsIn([u][1..]));
    assert f in NamedBy(u) && f in NestedScoping(s) && FieldOf(f, t) && t in s.tables;
    var r := ColumnRight(t, f, SELECT);
    assert AsksColumn(NestedScoping(s), t, SELECT, r);
    assert TableRight(s, t, r) && OwnRight(s, r) && Needs(s, [], r);
    assert !Holds(MANAGER, "d", r);
    assert Foreign(u) == [] by { ForeignOwned(u); }
    assert ReachingOutIn([u]) == Foreign(u) + (ReachingOut(u) + ReachingOutIn([u][1..]));
    forall q | NeedsOwn(s, [], q) ensures Holds(MANAGER, "d", q) {
      if OwnRightOwn(s, q) {
        assert false;
      } else {
        assert NeedsOwn(u, [], q) && q == manage;
        assert Covers(Key("d", "", "", "", MANAGE), "d", "", "", "", MANAGE);
      }
    }
  }

  lemma {:induction false} ForeignOwned(s: Statement)
    requires forall f :: f in s.fields + s.where ==> OwnsField(s, f)
    ensures Foreign(s) == []
  {
    var foreign := (f: Field) => f.schema != "" && f.table != "" && !OwnsField(s, f);
    var kept := Filter(foreign, s.fields + s.where);
    if kept != [] {
      FilterMember(foreign, s.fields + s.where, kept[0]);
    }
  }

  // ---- Exactly when nested scoping asks nothing extra ----

  ghost predicate SomeUnreadable(s: Statement) {
    || s.unreadable
    || (exists i :: 0 <= i < |s.subqueries| && SomeUnreadable(s.subqueries[i]))
    || (exists i :: 0 <= i < |s.also| && SomeUnreadable(s.also[i]))
  }

  lemma {:induction false} UnreadableNeedsOwn(s: Statement, above: seq<Field>)
    requires SomeUnreadable(s)
    ensures NeedsOwn(s, above, Anywhere(SELECT))
  {
    var n := ScopeBareRead(s, above);
    if s.unreadable {
      FloorActions();
      assert OwnRightOwn(n, Anywhere(SELECT));
    } else if i :| 0 <= i < |s.subqueries| && SomeUnreadable(s.subqueries[i]) {
      UnreadableNeedsOwn(s.subqueries[i], n.where);
    } else {
      var i :| 0 <= i < |s.also| && SomeUnreadable(s.also[i]);
      UnreadableNeedsOwn(s.also[i], n.where);
    }
  }

  lemma {:induction false} UnresolvedNeedsOwn(s: Statement, above: seq<Field>)
    requires !Resolved(s)
    ensures NeedsOwn(s, above, Nobody)
  {
    var n := ScopeBareRead(s, above);
    if ActsOnRows(s) && exists t :: t in s.tables && t.schema == "" {
      var t :| t in s.tables && t.schema == "";
      assert TableRightOwn(n, t, Nobody);
      assert OwnRightOwn(n, Nobody);
    } else if i :| 0 <= i < |s.subqueries| && !Resolved(s.subqueries[i]) {
      UnresolvedNeedsOwn(s.subqueries[i], n.where);
    } else {
      var i :| 0 <= i < |s.also| && !Resolved(s.also[i]);
      UnresolvedNeedsOwn(s.also[i], n.where);
    }
  }

  // ---- What a tree can name ----

  function NamesOf(fields: seq<Field>): set<string> {
    set f | f in fields :: f.name
  }

  function ColumnsOf(s: Statement): set<string> {
    NamesOf(s.fields) + NamesOf(s.where) + ColumnsIn(s.subqueries) + ColumnsIn(s.also)
  }

  function ColumnsIn(ss: seq<Statement>): set<string> {
    if ss == [] then {} else ColumnsOf(ss[0]) + ColumnsIn(ss[1..])
  }

  function TablesOf(s: Statement): set<(string, string)> {
    (set t | t in s.tables :: (t.schema, t.name)) + TablesIn(s.subqueries) + TablesIn(s.also)
  }

  function TablesIn(ss: seq<Statement>): set<(string, string)> {
    if ss == [] then {} else TablesOf(ss[0]) + TablesIn(ss[1..])
  }

  lemma {:induction false} NestedNames(ss: seq<Statement>, i: nat)
    requires i < |ss|
    ensures ColumnsOf(ss[i]) <= ColumnsIn(ss) && TablesOf(ss[i]) <= TablesIn(ss)
  {
    if i > 0 {
      NestedNames(ss[1..], i - 1);
    }
  }

  lemma {:induction false} ReachingNames(ss: seq<Statement>, f: Field)
    requires f in ReachingOutIn(ss)
    ensures f.name in ColumnsIn(ss)
    decreases ss
  {
    var s := ss[0];
    if f in Foreign(s) {
      FilterMember((g: Field) => g.schema != "" && g.table != "" && !OwnsField(s, g), s.fields + s.where, f);
      assert f.name in NamesOf(s.fields) + NamesOf(s.where);
    } else if f in ReachingOut(s) {
      ReachingOutNames(s, f);
    } else {
      ReachingNames(ss[1..], f);
    }
  }

  lemma ReachingOutNames(s: Statement, f: Field)
    requires f in ReachingOut(s)
    ensures f.name in ColumnsIn(s.subqueries) + ColumnsIn(s.also)
    decreases s
  {
    if f in ReachingOutIn(s.subqueries) {
      ReachingNames(s.subqueries, f);
    } else {
      ReachingNames(s.also, f);
    }
  }

  // A right of a tree that resolved: on the connection, or on a table it names,
  // whole or in a column it names.
  ghost predicate Within(r: Right, tables: set<(string, string)>, columns: set<string>) {
    && r.On? && r.action in FLOOR
    && (r == On("", "", "", MANAGE)
        || (r.schema != "" && r.table != "" && (r.schema, r.table) in tables
            && (r.column == "" || r.column in columns)))
  }

  lemma TakenNames(s: Statement, above: seq<Field>)
    ensures NamesOf(ScopeBareRead(s, above).where) <= NamesOf(s.where) + NamesOf(above)
  {
    var n := ScopeBareRead(s, above);
    forall f | f in n.where ensures f in s.where || f in above {
      FilterMember((g: Field) => OwnsField(s, g), above, f);
    }
  }

  lemma OwnRightWithin(s: Statement, above: seq<Field>, r: Right)
    requires Named(s) && Resolved(s) && !s.unreadable && OwnRightOwn(ScopeBareRead(s, above), r)
    ensures Within(r, TablesOf(s), ColumnsOf(s) + NamesOf(above))
  {
    var n := ScopeBareRead(s, above);
    FloorActions();
    TakenNames(s, above);
    if ActsOnRows(n) {
      var t :| t in n.tables && TableRightOwn(n, t, r);
      assert t in s.tables && (t.schema, t.name) in TablesOf(s);
      assert ReachingOut(n) == ReachingOut(s);
      OneTableAsks(n, t, r);
      if f :| f in n.fields + n.where + ReachingOut(s) && r.column == f.name {
        OwnColumn(s, n, f);
      }
    }
  }

  // A right of one table is on it, whole or in a column that the statement
  // names or that reaches out to it.
  lemma OneTableAsks(n: Statement, t: Table, r: Right)
    requires TableRightOwn(n, t, r) && t.schema != ""
    ensures r.On? && r.schema == t.schema && r.table == t.name && (r.action == ActionOf(n.op) || r.action == SELECT)
    ensures r.column == "" || exists f :: f in n.fields + n.where + ReachingOut(n) && r.column == f.name
  {
  }

  lemma OwnColumn(s: Statement, n: Statement, f: Field)
    requires f in n.fields + n.where + ReachingOut(s) && n.fields == s.fields
    ensures f.name in ColumnsOf(s) + NamesOf(n.where)
  {
    if f in ReachingOut(s) {
      ReachingOutNames(s, f);
    } else {
      assert f.name in NamesOf(n.fields) + NamesOf(n.where);
    }
  }

  lemma {:induction false} NeedsWithin(s: Statement, above: seq<Field>, r: Right)
    requires Named(s) && Resolved(s) && !SomeUnreadable(s) && NeedsOwn(s, above, r)
    ensures Within(r, TablesOf(s), ColumnsOf(s) + NamesOf(above))
  {
    var n := ScopeBareRead(s, above);
    TakenNames(s, above);
    if i :| 0 <= i < |s.subqueries| && NeedsOwn(s.subqueries[i], n.where, r) {
      NeedsWithin(s.subqueries[i], n.where, r);
      NestedNames(s.subqueries, i);
    } else if i :| 0 <= i < |s.also| && NeedsOwn(s.also[i], n.where, r) {
      NeedsWithin(s.also[i], n.where, r);
      NestedNames(s.also, i);
    } else {
      OwnRightWithin(s, above, r);
    }
  }

  // ---- Rules that hold everything else the tree asks for ----

  const ALLOWED := set action | action in FLOOR :: Key("", "", "", "", action)

  function Ruled(allow: set<Key>, deny: set<Key>): Compiled {
    Compiled(map k | k in deny :: "role", map k | k in allow :: "role", {}, true)
  }

  // Everything but one column.
  function AllBut(r: Right): Compiled
    requires r.On?
  {
    Ruled(ALLOWED, {Key("", r.schema, r.table, r.column, r.action)})
  }

  lemma AllButHolds(r: Right, q: Right, tables: set<(string, string)>, columns: set<string>)
    requires Within(r, tables, columns) && Within(q, tables, columns) && r.schema != "" && r.column != ""
    ensures Holds(AllBut(r), "", q) <==> q != r
  {
    var k := Key("", r.schema, r.table, r.column, r.action);
    assert Key("", "", "", "", q.action) in AllBut(r).allow;
    assert Covers(Key("", "", "", "", q.action), "", q.schema, q.table, q.column, q.action);
    assert k in AllBut(r).deny;
    assert Covers(k, "", q.schema, q.table, q.column, q.action) <==> q == r;
  }

  // Every column by name, and every table as a whole but one.
  function AllButWhole(r: Right, tables: set<(string, string)>, columns: set<string>): Compiled
    requires r.On?
  {
    Ruled((ALLOWED - {Key("", "", "", "", SELECT)})
          + (set c | c in columns && c != "" :: Key("", "", "", c, SELECT))
          + (set t | t in tables && t.0 != "" && t.1 != ""
              && t != (r.schema, r.table) :: Key("", t.0, t.1, "", SELECT)), {})
  }

  lemma AllButWholeHolds(r: Right, q: Right, tables: set<(string, string)>, columns: set<string>)
    requires Within(r, tables, columns) && Within(q, tables, columns)
    requires r.schema != "" && r.column == "" && r.action == SELECT
    ensures Holds(AllButWhole(r, tables, columns), "", q) <==> q != r
  {
    var idx := AllButWhole(r, tables, columns);
    if q.action != SELECT {
      var k := Key("", "", "", "", q.action);
      assert k in ALLOWED && k in idx.allow;
      assert Covers(k, "", q.schema, q.table, q.column, q.action);
    } else if q.column != "" {
      var k := Key("", "", "", q.column, SELECT);
      assert k in idx.allow && Covers(k, "", q.schema, q.table, q.column, q.action);
    } else if q != r {
      var k := Key("", q.schema, q.table, "", SELECT);
      assert (q.schema, q.table) in tables;
      assert k in idx.allow && Covers(k, "", q.schema, q.table, q.column, q.action);
    } else {
      forall k | k in idx.allow ensures !Covers(k, "", q.schema, q.table, q.column, q.action) {
      }
    }
  }

  lemma {:induction false} ScopedIsNeeded(s: Statement, above: seq<Field>, r: Right)
    requires Resolved(s) && ScopedByUnclassified(s, above, r)
    ensures Needs(s, above, r)
  {
    var n := ScopeBareRead(s, above);
    if i :| 0 <= i < |s.subqueries| && ScopedByUnclassified(s.subqueries[i], n.where, r) {
      ScopedIsNeeded(s.subqueries[i], n.where, r);
    } else if i :| 0 <= i < |s.also| && ScopedByUnclassified(s.also[i], n.where, r) {
      ScopedIsNeeded(s.also[i], n.where, r);
    } else {
      var t :| t in n.tables && !Names(Scoping(n), t) && AsksColumn(UnclassifiedTests(n), t, SELECT, r);
      var f :| f in UnclassifiedTests(n) && FieldOf(f, t) && r == ColumnRight(t, f, SELECT);
      UnclassifiedIsNested(s, f);
      assert NestedFields(n) == NestedFields(s) && UnclassifiedTests(n) == UnclassifiedTests(s);
      assert AsksColumn(NestedScoping(n), t, SELECT, r);
      assert TableRight(n, t, r);
      assert OwnRight(n, r);
    }
  }

  lemma {:induction false} UnclassifiedIsNestedIn(ss: seq<Statement>, f: Field)
    requires f in UnclassifiedTestsIn(ss)
    ensures f in NestedFieldsIn(ss)
    decreases ss
  {
    var s := ss[0];
    if f in OwnTests(s) {
      FilterMember((g: Field) => OwnsField(s, g), s.where, f);
    } else if f in UnclassifiedTests(s) {
      UnclassifiedIsNested(s, f);
    } else {
      UnclassifiedIsNestedIn(ss[1..], f);
    }
  }

  lemma UnclassifiedIsNested(s: Statement, f: Field)
    requires f in UnclassifiedTests(s)
    ensures f in NestedFields(s)
    decreases s
  {
    if f in UnclassifiedTestsIn(s.subqueries) {
      UnclassifiedIsNestedIn(s.subqueries, f);
    } else {
      UnclassifiedIsNestedIn(s.also, f);
    }
  }

  lemma {:induction false} ScopedIsSelect(s: Statement, above: seq<Field>, r: Right)
    requires ScopedByUnclassified(s, above, r)
    ensures r.On? && r.action == SELECT
  {
    var n := ScopeBareRead(s, above);
    if i :| 0 <= i < |s.subqueries| && ScopedByUnclassified(s.subqueries[i], n.where, r) {
      ScopedIsSelect(s.subqueries[i], n.where, r);
    } else if i :| 0 <= i < |s.also| && ScopedByUnclassified(s.also[i], n.where, r) {
      ScopedIsSelect(s.also[i], n.where, r);
    }
  }

  lemma {:induction false} NestedColumn(ss: seq<Statement>, f: Field)
    requires f in NestedFieldsIn(ss)
    ensures f.name in ColumnsIn(ss)
    decreases ss
  {
    var s := ss[0];
    if f in NamedBy(s) {
      assert f.name in NamesOf(s.fields) + NamesOf(s.where);
    } else if f in NestedFieldsIn(s.subqueries) {
      NestedColumn(s.subqueries, f);
    } else if f in NestedFieldsIn(s.also) {
      NestedColumn(s.also, f);
    } else {
      NestedColumn(ss[1..], f);
    }
  }

  lemma {:induction false} ScopedIsWithin(s: Statement, above: seq<Field>, r: Right)
    requires Named(s) && Resolved(s) && ScopedByUnclassified(s, above, r)
    ensures Within(r, TablesOf(s), ColumnsOf(s) + NamesOf(above)) && r.schema != ""
  {
    var n := ScopeBareRead(s, above);
    FloorActions();
    TakenNames(s, above);
    ScopedIsSelect(s, above, r);
    if i :| 0 <= i < |s.subqueries| && ScopedByUnclassified(s.subqueries[i], n.where, r) {
      ScopedIsWithin(s.subqueries[i], n.where, r);
      NestedNames(s.subqueries, i);
    } else if i :| 0 <= i < |s.also| && ScopedByUnclassified(s.also[i], n.where, r) {
      ScopedIsWithin(s.also[i], n.where, r);
      NestedNames(s.also, i);
    } else {
      var t :| t in n.tables && !Names(Scoping(n), t) && AsksColumn(UnclassifiedTests(n), t, SELECT, r);
      assert UnclassifiedTests(n) == UnclassifiedTests(s);
      TestIsWithin(s, t, r);
    }
  }

  lemma TestIsWithin(s: Statement, t: Table, r: Right)
    requires AsksColumn(UnclassifiedTests(s), t, SELECT, r) && t in s.tables && t.schema != "" && t.name != ""
    ensures Within(r, TablesOf(s), ColumnsOf(s)) && r.schema != ""
  {
    var f :| f in UnclassifiedTests(s) && FieldOf(f, t) && r == ColumnRight(t, f, SELECT);
    UnclassifiedIsNested(s, f);
    if f in NestedFieldsIn(s.subqueries) { NestedColumn(s.subqueries, f); } else { NestedColumn(s.also, f); }
    assert (t.schema, t.name) in TablesOf(s);
    FloorActions();
  }

  // The decision never depends on nested scoping exactly when some statement asks
  // on its own for every column the scoping asks for on account of unclassified
  // statements, or the tree holds text nobody could read or a table nobody
  // resolved, which settle the rest.
  lemma NestedScopingExactly(s: Statement, above: seq<Field>)
    requires Named(s)
    ensures (forall idx, ds :: AllHold(idx, ds, s, above) <==> AllHoldOwn(idx, ds, s, above))
            <==> SomeUnreadable(s) || !Resolved(s)
                 || forall r :: ScopedByUnclassified(s, above, r) ==> NeedsOwn(s, above, r)
  {
    if SomeUnreadable(s) { UnreadableNeedsOwn(s, above); }
    if !Resolved(s) { UnresolvedNeedsOwn(s, above); }
    if SomeUnreadable(s) || !Resolved(s) || forall r :: ScopedByUnclassified(s, above, r) ==> NeedsOwn(s, above, r) {
      forall r | ScopedByUnclassified(s, above, r) ensures Settled(s, above, r) {
        ScopedIsSelect(s, above, r);
      }
      forall idx, ds ensures AllHold(idx, ds, s, above) <==> AllHoldOwn(idx, ds, s, above) {
        OwnAcceptanceDecides(idx, ds, s, above);
      }
    } else {
      var r :| ScopedByUnclassified(s, above, r) && !NeedsOwn(s, above, r);
      var idx := ScopingRefuses(s, above, r);
      assert !(AllHold(idx, "", s, above) <==> AllHoldOwn(idx, "", s, above));
    }
  }

  // Rules under which nested scoping alone refuses the tree.
  lemma ScopingRefuses(s: Statement, above: seq<Field>, r: Right) returns (idx: Compiled)
    requires Named(s) && Resolved(s) && !SomeUnreadable(s) && ScopedByUnclassified(s, above, r)
        && !NeedsOwn(s, above, r)
    ensures !AllHold(idx, "", s, above) && AllHoldOwn(idx, "", s, above)
  {
    var tables, columns := TablesOf(s), ColumnsOf(s) + NamesOf(above);
    ScopedIsNeeded(s, above, r);
    ScopedIsSelect(s, above, r);
    ScopedIsWithin(s, above, r);
    idx := if r.column == "" then AllButWhole(r, tables, columns) else AllBut(r);
    OnlyRefused(idx, r, r, tables, columns);
    forall q | NeedsOwn(s, above, q) ensures Holds(idx, "", q) {
      NeedsWithin(s, above, q);
      OnlyRefused(idx, r, q, tables, columns);
    }
  }

  lemma OnlyRefused(idx: Compiled, r: Right, q: Right, tables: set<(string, string)>, columns: set<string>)
    requires Within(r, tables, columns) && Within(q, tables, columns) && r.schema != "" && r.action == SELECT
    requires idx == if r.column == "" then AllButWhole(r, tables, columns) else AllBut(r)
    ensures Holds(idx, "", q) <==> q != r
  {
    if r.column == "" { AllButWholeHolds(r, q, tables, columns); } else { AllButHolds(r, q, tables, columns); }
  }
}
