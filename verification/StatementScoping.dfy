// Soundness of the check over a statement tree: what an accepted tree reads and
// writes was asked for.
module StatementScoping {
  import opened Collections
  import opened Statements
  import opened Permissions
  import opened StatementChecks

  // A chain of statements, each nested in the one before it.
  ghost predicate Nests(chain: seq<Statement>) {
    forall i :: 0 <= i < |chain| - 1 ==> chain[i + 1] in chain[i].subqueries || chain[i + 1] in chain[i].also
  }

  // A statement whose own relations are checked, table by table or all at once.
  predicate Checked(s: Statement) {
    s.unreadable || s.op.Select? || IsWrite(s.op)
  }

  // The columns a statement reads: what it tests, and what a select returns.
  predicate Reads(s: Statement, f: Field) {
    f in s.where || (s.op.Select? && f in s.fields)
  }

  // The last statement of a chain as the check sees it: a bare read has taken
  // the columns tested above it, which may have been taken the same way.
  function ScopedAlong(chain: seq<Statement>, above: seq<Field>): Statement
    requires chain != []
  {
    var n := ScopeBareRead(chain[0], above);
    if |chain| == 1 then n else ScopedAlong(chain[1..], n.where)
  }

  lemma NestedNeeds(s: Statement, above: seq<Field>, nested: Statement, r: Right)
    requires nested in s.subqueries || nested in s.also
    requires Needs(nested, ScopeBareRead(s, above).where, r)
    ensures Needs(s, above, r)
  {
    if nested in s.subqueries {
      var i :| 0 <= i < |s.subqueries| && s.subqueries[i] == nested;
    } else {
      var i :| 0 <= i < |s.also| && s.also[i] == nested;
    }
  }

  lemma {:induction false} ChainIsChecked(idx: Compiled, ds: string, chain: seq<Statement>, above: seq<Field>)
    returns (tested: seq<Field>)
    requires chain != [] && Nests(chain) && AllHold(idx, ds, chain[0], above)
    ensures AllHold(idx, ds, chain[|chain| - 1], tested)
    ensures ScopedAlong(chain, above) == ScopeBareRead(chain[|chain| - 1], tested)
  {
    if |chain| == 1 {
      tested := above;
    } else {
      var n := ScopeBareRead(chain[0], above);
      assert chain[1] == chain[0 + 1];
      forall r | Needs(chain[1], n.where, r) ensures Holds(idx, ds, r) {
        NestedNeeds(chain[0], above, chain[1], r);
      }
      tested := ChainIsChecked(idx, ds, chain[1..], n.where);
    }
  }

  lemma TablesHold(idx: Compiled, ds: string, s: Statement, above: seq<Field>, t: Table, r: Right)
    requires AllHold(idx, ds, s, above) && ActsOnRows(s) && t in s.tables
    requires TableRight(ScopeBareRead(s, above), t, r)
    ensures Holds(idx, ds, r)
  {
    assert OwnRight(ScopeBareRead(s, above), r);
    assert Needs(s, above, r);
  }

  lemma SchemaKnown(idx: Compiled, ds: string, s: Statement, above: seq<Field>, t: Table)
    requires AllHold(idx, ds, s, above) && ActsOnRows(s) && t in s.tables
    ensures t.schema != ""
  {
    if t.schema == "" {
      TablesHold(idx, ds, s, above, t, Nobody);
    }
  }

  lemma UnreadableHolds(idx: Compiled, ds: string, s: Statement, above: seq<Field>, r: Right)
    requires AllHold(idx, ds, s, above) && s.unreadable && r.On? && r.action in FLOOR
    ensures Holds(idx, ds, r)
  {
    assert OwnRight(ScopeBareRead(s, above), Anywhere(r.action));
    assert Needs(s, above, Anywhere(r.action));
    AnywhereCovers(idx, ds, r.schema, r.table, r.column, r.action);
  }

  // A statement checked by table asks for select on every column it reads of
  // its own tables, those it took from the statement above it included.
  lemma OwnReadIsAsked(s: Statement, above: seq<Field>, f: Field)
    requires ActsOnRows(s) && Reads(ScopeBareRead(s, above), f) && OwnsField(s, f) && f.schema != ""
    ensures Needs(s, above, On(f.schema, f.table, f.name, SELECT))
  {
    var r, n := On(f.schema, f.table, f.name, SELECT), ScopeBareRead(s, above);
    var t :| t in s.tables && FieldOf(f, t);
    assert r == ColumnRight(t, f, SELECT);
    if s.op.Select? {
      assert AsksColumn(Scoping(n), t, SELECT, r);
    } else {
      assert f in Tested(n);
      assert AsksColumn(Tested(n), t, SELECT, r);
    }
    assert TableRight(n, t, r);
    assert OwnRight(n, r);
  }

  // A bare read answers for every column the statement above it tests of its tables.
  lemma BareReadIsAsked(s: Statement, above: seq<Field>, read: Statement, f: Field)
    requires (read in s.subqueries || read in s.also) && ActsOnRows(read) && read.fields == [] && read.where == []
    requires f in ScopeBareRead(s, above).where && OwnsField(read, f) && f.schema != ""
    ensures Needs(s, above, On(f.schema, f.table, f.name, SELECT))
  {
    var tested := ScopeBareRead(s, above).where;
    FilterMember((g: Field) => OwnsField(read, g), tested, f);
    OwnReadIsAsked(read, tested, f);
    NestedNeeds(s, above, read, On(f.schema, f.table, f.name, SELECT));
  }

  lemma OwnReadHolds(idx: Compiled, ds: string, s: Statement, above: seq<Field>, f: Field)
    requires AllHold(idx, ds, s, above) && Checked(s) && Reads(ScopeBareRead(s, above), f) && OwnsField(s, f)
    requires f.schema != ""
    ensures Holds(idx, ds, On(f.schema, f.table, f.name, SELECT))
  {
    if s.unreadable {
      assert FLOOR[1] == SELECT;
      UnreadableHolds(idx, ds, s, above, On(f.schema, f.table, f.name, SELECT));
    } else {
      OwnReadIsAsked(s, above, f);
    }
  }

  // A column reaching out to an enclosing statement's table is asked for there.
  lemma ReachedReadHolds(idx: Compiled, ds: string, s: Statement, above: seq<Field>, f: Field)
    requires AllHold(idx, ds, s, above) && Checked(s) && f in ReachingOut(s) && OwnsField(s, f)
    ensures Holds(idx, ds, On(f.schema, f.table, f.name, SELECT))
  {
    var r, n := On(f.schema, f.table, f.name, SELECT), ScopeBareRead(s, above);
    if s.unreadable {
      assert FLOOR[1] == SELECT;
      UnreadableHolds(idx, ds, s, above, r);
    } else {
      var t :| t in s.tables && FieldOf(f, t);
      SchemaKnown(idx, ds, s, above, t);
      assert ReachingOut(n) == ReachingOut(s);
      assert f in Tested(n) && r == ColumnRight(t, f, SELECT);
      assert AsksColumn(Tested(n), t, SELECT, r);
      TablesHold(idx, ds, s, above, t, r);
    }
  }

  lemma {:induction false} ReachingFrom(ss: seq<Statement>, s: Statement, f: Field)
    requires s in ss && (f in Foreign(s) || f in ReachingOut(s))
    ensures f in ReachingOutIn(ss)
  {
    if s != ss[0] {
      assert ss == [ss[0]] + ss[1..];
      ReachingFrom(ss[1..], s, f);
    }
  }

  // A column the last statement of a chain names and does not own reaches out to every other one.
  lemma {:induction false} ReachesEveryAncestor(chain: seq<Statement>, f: Field)
    requires |chain| > 1 && Nests(chain) && f in Foreign(chain[|chain| - 1])
    ensures f in ReachingOut(chain[0])
  {
    var s, next := chain[0], chain[1];
    assert next == chain[0 + 1];
    if |chain| > 2 {
      ReachesEveryAncestor(chain[1..], f);
    }
    if next in s.subqueries {
      ReachingFrom(s.subqueries, next, f);
    } else {
      ReachingFrom(s.also, next, f);
    }
  }

  // Reads are covered: in an accepted tree every resolved column a statement
  // reads at any depth, or takes as a bare read from what is tested above it,
  // that belongs to a table of its own or of any statement enclosing it, is a
  // column the role may select.
  lemma ReadsAreAllowed(idx: Compiled, ds: string, statements: seq<Statement>, chain: seq<Statement>, i: nat, f: Field)
    requires IsManaged(idx, ds) && Accepts(idx, ds, statements)
    requires chain != [] && chain[0] in statements && Nests(chain) && i < |chain|
    requires Reads(ScopedAlong(chain, []), f) && f.schema != "" && f.table != ""
    requires Checked(chain[|chain| - 1]) && Checked(chain[i]) && OwnsField(chain[i], f)
    ensures Holds(idx, ds, On(f.schema, f.table, f.name, SELECT))
  {
    var last := chain[|chain| - 1];
    var tested := ChainIsChecked(idx, ds, chain, []);
    if OwnsField(last, f) {
      OwnReadHolds(idx, ds, last, tested, f);
    } else {
      ReadItself(last, tested, f);
      EnclosingReadIsAllowed(idx, ds, chain, i, f);
    }
  }

  lemma EnclosingReadIsAllowed(idx: Compiled, ds: string, chain: seq<Statement>, i: nat, f: Field)
    requires chain != [] && Nests(chain) && i < |chain| && AllHold(idx, ds, chain[0], [])
    requires var last := chain[|chain| - 1]; Reads(last, f) && !OwnsField(last, f) && f.schema != "" && f.table != ""
    requires Checked(chain[i]) && OwnsField(chain[i], f)
    ensures Holds(idx, ds, On(f.schema, f.table, f.name, SELECT))
  {
    var upto := chain[..i + 1];
    assert upto[0] == chain[0] && upto[|upto| - 1] == chain[i];
    var reached := ChainIsChecked(idx, ds, upto, []);
    ReadIsForeign(chain[|chain| - 1], f);
    ReachesEveryAncestor(chain[i..], f);
    ReachedReadHolds(idx, ds, chain[i], reached, f);
  }

  lemma ReadIsForeign(s: Statement, f: Field)
    requires Reads(s, f) && !OwnsField(s, f) && f.schema != "" && f.table != ""
    ensures f in Foreign(s)
  {
    FilterMember((g: Field) => g.schema != "" && g.table != "" && !OwnsField(s, g), s.fields + s.where, f);
  }

  // A read takes from above only columns of its own tables.
  lemma ReadItself(s: Statement, above: seq<Field>, f: Field)
    requires Reads(ScopeBareRead(s, above), f) && !OwnsField(s, f)
    ensures Reads(s, f)
  {
    FilterMember((g: Field) => OwnsField(s, g), above, f);
  }

  // Writes are covered: each table a write names is allowed on every column
  // written, or as a whole when no written column names it.
  lemma WritesAreAllowed(idx: Compiled, ds: string, statements: seq<Statement>, chain: seq<Statement>, t: Table)
    requires IsManaged(idx, ds) && Accepts(idx, ds, statements)
    requires chain != [] && chain[0] in statements && Nests(chain)
    requires var s := chain[|chain| - 1]; ActsOnRows(s) && IsWrite(s.op) && t in s.tables
    ensures var s := chain[|chain| - 1];
            var action := ActionOf(s.op);
            if Names(s.fields, t)
            then forall f :: f in s.fields && FieldOf(f, t) ==> Holds(idx, ds, ColumnRight(t, f, action))
            else Holds(idx, ds, On(t.schema, t.name, "", action))
  {
    var s := chain[|chain| - 1];
    var action := ActionOf(s.op);
    var tested := ChainIsChecked(idx, ds, chain, []);
    var n := ScopeBareRead(s, tested);
    SchemaKnown(idx, ds, s, tested, t);
    assert Scoping(n) == s.fields;
    if Names(s.fields, t) {
      forall f | f in s.fields && FieldOf(f, t) ensures Holds(idx, ds, ColumnRight(t, f, action)) {
        assert AsksColumn(Scoping(n), t, action, ColumnRight(t, f, action));
        TablesHold(idx, ds, s, tested, t, ColumnRight(t, f, action));
      }
    } else {
      TablesHold(idx, ds, s, tested, t, On(t.schema, t.name, "", action));
    }
  }

  // Every table a select names is covered: on the columns it reads of it, or
  // failing those on the columns nested reads name of it, or as a whole.
  lemma SelectedTablesAreAllowed(idx: Compiled, ds: string, statements: seq<Statement>, chain: seq<Statement>, t: Table)
    requires IsManaged(idx, ds) && Accepts(idx, ds, statements)
    requires chain != [] && chain[0] in statements && Nests(chain)
    requires var s := chain[|chain| - 1]; ActsOnRows(s) && s.op.Select? && t in s.tables
    ensures var n := ScopedAlong(chain, []);
            var fields := if Names(n.fields + n.where, t) then n.fields + n.where else NestedFields(n);
            if Names(fields, t)
            then forall f :: f in fields && FieldOf(f, t) ==> Holds(idx, ds, ColumnRight(t, f, SELECT))
            else Holds(idx, ds, On(t.schema, t.name, "", SELECT))
  {
    var s := chain[|chain| - 1];
    var tested := ChainIsChecked(idx, ds, chain, []);
    var n := ScopeBareRead(s, tested);
    SchemaKnown(idx, ds, s, tested, t);
    var fields := if Names(Scoping(n), t) then Scoping(n) else NestedFields(n);
    if Names(fields, t) {
      forall f | f in fields && FieldOf(f, t) ensures Holds(idx, ds, ColumnRight(t, f, SELECT)) {
        assert AsksColumn(fields, t, SELECT, ColumnRight(t, f, SELECT));
        TablesHold(idx, ds, s, tested, t, ColumnRight(t, f, SELECT));
      }
    } else {
      TablesHold(idx, ds, s, tested, t, On(t.schema, t.name, "", SELECT));
    }
  }

  // ---- Which right each operation asks for ----

  // Every column the fields name of a table is allowed, or the table as a whole
  // where they name none.
  ghost predicate Granted(idx: Compiled, ds: string, fields: seq<Field>, t: Table, action: string) {
    if exists f :: f in fields && f.schema == t.schema && f.table == t.name
    then forall f :: f in fields && f.schema == t.schema && f.table == t.name ==>
           IsAllowed(idx, ds, t.schema, t.name, f.name, action)
    else IsAllowed(idx, ds, t.schema, t.name, "", action)
  }

  // On acceptance a write at any depth holds the right of its own operation on
  // what it writes, a select holds select, and what nobody classified holds manage.
  lemma OperationsAreGranted(idx: Compiled, ds: string, statements: seq<Statement>, chain: seq<Statement>)
    requires IsManaged(idx, ds) && Accepts(idx, ds, statements)
    requires chain != [] && chain[0] in statements && Nests(chain) && !chain[|chain| - 1].unreadable
    ensures var s, n := chain[|chain| - 1], ScopedAlong(chain, []);
            match s.op
            case Insert => forall t :: t in s.tables ==> t.schema != "" && Granted(idx, ds, s.fields, t, "insert")
            case Update => forall t :: t in s.tables ==> t.schema != "" && Granted(idx, ds, s.fields, t, "update")
            case Delete => forall t :: t in s.tables ==> t.schema != "" && Granted(idx, ds, s.fields, t, "delete")
            case Select =>
              forall t :: t in s.tables ==>
                t.schema != "" &&
                Granted(idx, ds, if Names(n.fields + n.where, t) then n.fields + n.where else NestedFields(n),
                        t, "select")
            case Transaction => true
            case Other(_) => IsAllowed(idx, ds, "", "", "", "manage")
  {
    var s := chain[|chain| - 1];
    var tested := ChainIsChecked(idx, ds, chain, []);
    if s.op.Other? {
      assert OwnRight(ScopeBareRead(s, tested), On("", "", "", MANAGE));
      assert Needs(s, tested, On("", "", "", MANAGE));
    } else if !s.op.Transaction? {
      forall t | t in s.tables ensures t.schema != "" {
        SchemaKnown(idx, ds, s, tested, t);
      }
      if s.op.Select? {
        forall t | t in s.tables
          ensures var n := ScopedAlong(chain, []);
                  Granted(idx, ds, if Names(n.fields + n.where, t) then n.fields + n.where else NestedFields(n),
                          t, "select")
        {
          SelectedTablesAreAllowed(idx, ds, statements, chain, t);
          GrantedBySelect(idx, ds, ScopedAlong(chain, []), t);
        }
      } else {
        forall t | t in s.tables ensures Granted(idx, ds, s.fields, t, ActionOf(s.op)) {
          WritesAreAllowed(idx, ds, statements, chain, t);
          GrantedByName(idx, ds, s.fields, t, ActionOf(s.op));
        }
      }
    }
  }

  lemma GrantedByName(idx: Compiled, ds: string, fields: seq<Field>, t: Table, action: string)
    requires if Names(fields, t)
             then forall f :: f in fields && FieldOf(f, t) ==> Holds(idx, ds, ColumnRight(t, f, action))
             else Holds(idx, ds, On(t.schema, t.name, "", action))
    ensures Granted(idx, ds, fields, t, action)
  {
    forall f | f in fields && f.schema == t.schema && f.table == t.name
      ensures IsAllowed(idx, ds, t.schema, t.name, f.name, action)
    {
      assert FieldOf(f, t);
    }
  }

  lemma GrantedBySelect(idx: Compiled, ds: string, n: Statement, t: Table)
    requires var fields := if Names(n.fields + n.where, t) then n.fields + n.where else NestedFields(n);
             if Names(fields, t)
             then forall f :: f in fields && FieldOf(f, t) ==> Holds(idx, ds, ColumnRight(t, f, SELECT))
             else Holds(idx, ds, On(t.schema, t.name, "", SELECT))
    ensures Granted(idx, ds, if Names(n.fields + n.where, t) then n.fields + n.where else NestedFields(n), t, "select")
  {
    GrantedByName(idx, ds, if Names(n.fields + n.where, t) then n.fields + n.where else NestedFields(n), t, SELECT);
  }

  // f is a column of t among fields, and r the right on it.
  ghost predicate OnColumn(fields: seq<Field>, t: Table, action: string, r: Right) {
    exists f :: f in fields && f.schema == t.schema && f.table == t.name && r == On(t.schema, t.name, f.name, action)
  }

  ghost predicate OnTable(fields: seq<Field>, t: Table, action: string, r: Right) {
    OnColumn(fields, t, action, r) ||
    (r == On(t.schema, t.name, "", action) && forall f :: f in fields ==> !(f.schema == t.schema && f.table == t.name))
  }

  // A write of this action asks for nothing on its own but that action on what
  // it writes and select on what it tests.
  ghost predicate WriteRight(s: Statement, action: string, r: Right) {
    exists t :: t in s.tables &&
      if t.schema == "" then r == Nobody
      else OnTable(s.fields, t, action, r) || OnColumn(s.where + ReachingOut(s), t, "select", r)
  }

  // Exactly what a readable statement asks for on its own, by operation.
  lemma OwnRightsByOperation(s: Statement, r: Right)
    requires !s.unreadable
    ensures match s.op
            case Insert => OwnRight(s, r) <==> WriteRight(s, "insert", r)
            case Update => OwnRight(s, r) <==> WriteRight(s, "update", r)
            case Delete => OwnRight(s, r) <==> WriteRight(s, "delete", r)
            case Transaction => !OwnRight(s, r)
            case Other(_) => OwnRight(s, r) <==> r == On("", "", "", "manage")
            case Select =>
              OwnRight(s, r) <==>
                exists t :: t in s.tables &&
                  if t.schema == "" then r == Nobody
                  else
                    || OnTable(if Names(s.fields + s.where, t) then s.fields + s.where else NestedFields(s),
                               t, "select", r)
                    || OnColumn(ReachingOut(s), t, "select", r)
  {
    if IsWrite(s.op) {
      forall t | t in s.tables && t.schema != ""
        ensures TableRight(s, t, r) <==>
                  OnTable(s.fields, t, ActionOf(s.op), r) || OnColumn(s.where + ReachingOut(s), t, "select", r)
      {
        WriteAsks(s, t, r);
      }
    } else if s.op.Select? {
      forall t | t in s.tables && t.schema != ""
        ensures TableRight(s, t, r) <==>
                  || OnTable(if Names(s.fields + s.where, t) then s.fields + s.where else NestedFields(s),
                             t, "select", r)
                  || OnColumn(ReachingOut(s), t, "select", r)
      {
        SelectAsks(s, t, r);
      }
    }
  }

  // A statement nobody could read asks for manage and the four row rights, each
  // on the whole connection.
  lemma UnreadableAsks(s: Statement, r: Right)
    requires s.unreadable
    ensures OwnRight(s, r) <==>
              r in [Anywhere("manage"), Anywhere("select"), Anywhere("insert"), Anywhere("update"), Anywhere("delete")]
  {
    assert FLOOR[0] == "manage" && FLOOR[1] == "select" && FLOOR[2] == "insert";
    assert FLOOR[3] == "update" && FLOOR[4] == "delete";
  }

  lemma AsksIsOnColumn(fields: seq<Field>, t: Table, action: string, r: Right)
    ensures AsksColumn(fields, t, action, r) <==> OnColumn(fields, t, action, r)
  {
    if f :| f in fields && FieldOf(f, t) && r == ColumnRight(t, f, action) {
      assert OnColumn(fields, t, action, r);
    }
    if f :| f in fields && f.schema == t.schema && f.table == t.name && r == On(t.schema, t.name, f.name, action) {
      assert FieldOf(f, t);
    }
  }

  lemma WriteAsks(s: Statement, t: Table, r: Right)
    requires IsWrite(s.op) && t.schema != ""
    ensures TableRight(s, t, r) <==>
              OnTable(s.fields, t, ActionOf(s.op), r) || OnColumn(s.where + ReachingOut(s), t, "select", r)
  {
    AsksIsOnColumn(s.fields, t, ActionOf(s.op), r);
    AsksIsOnColumn(s.where + ReachingOut(s), t, SELECT, r);
    assert !AsksColumn([], t, ActionOf(s.op), r) && !Names([], t);
    NamesIt(s.fields, t);
  }

  lemma NamesIt(fields: seq<Field>, t: Table)
    ensures Names(fields, t) <==> exists f :: f in fields && f.schema == t.schema && f.table == t.name
  {
    if f :| f in fields && f.schema == t.schema && f.table == t.name { assert FieldOf(f, t); }
  }

  lemma SelectAsks(s: Statement, t: Table, r: Right)
    requires s.op.Select? && t.schema != ""
    ensures TableRight(s, t, r) <==>
              || OnTable(if Names(s.fields + s.where, t) then s.fields + s.where else NestedFields(s), t, "select", r)
              || OnColumn(ReachingOut(s), t, "select", r)
  {
    var own, tested := s.fields + s.where, s.where + ReachingOut(s);
    AsksIsOnColumn(own, t, SELECT, r);
    AsksIsOnColumn(NestedFields(s), t, SELECT, r);
    AsksIsOnColumn(tested, t, SELECT, r);
    NamesIt(own, t);
    NamesIt(NestedFields(s), t);
    if OnColumn(s.where, t, "select", r) { NamedWhere(s, t, r); }
  }

  // Select on what a select tests of a table is among the rights on what it names.
  lemma NamedWhere(s: Statement, t: Table, r: Right)
    requires OnColumn(s.where, t, "select", r)
    ensures OnColumn(s.fields + s.where, t, "select", r) && Names(s.fields + s.where, t)
  {
    var f :| f in s.where && f.schema == t.schema && f.table == t.name && r == On(t.schema, t.name, f.name, "select");
    assert f in s.fields + s.where && FieldOf(f, t);
  }

  // ---- The recursions, in terms of chains of nested statements ----

  // A chain down from s, to a statement nested in it at some depth, or to itself.
  ghost predicate Down(s: Statement, chain: seq<Statement>) {
    chain != [] && chain[0] == s && Nests(chain)
  }

  // What a bare read has taken: the tested columns of its tables; any other
  // statement keeps its own tests, and nothing else of either changes.
  lemma TakenExactly(read: Statement, tested: seq<Field>, f: Field)
    ensures var n := ScopeBareRead(read, tested);
            && n == read.(where := n.where)
            && (f in n.where <==>
                  if read.fields == [] && read.where == []
                  then f in tested && exists t :: t in read.tables && f.schema == t.schema && f.table == t.name
                  else f in read.where)
  {
    FilterMember((g: Field) => OwnsField(read, g), tested, f);
    if t :| t in read.tables && f.schema == t.schema && f.table == t.name {
      assert FieldOf(f, t);
    }
  }

  lemma ChainGrows(s: Statement, chain: seq<Statement>)
    requires chain != [] && Nests(chain) && (chain[0] in s.subqueries || chain[0] in s.also)
    ensures Down(s, [s] + chain) && ([s] + chain)[|chain|] == chain[|chain| - 1]
  {
    var longer := [s] + chain;
    forall i | 0 <= i < |longer| - 1 ensures longer[i + 1] in longer[i].subqueries || longer[i + 1] in longer[i].also {
      if i > 0 { assert longer[i] == chain[i - 1] && longer[i + 1] == chain[i - 1 + 1]; }
    }
  }

  // The tree needs exactly what the statements along its chains ask for on their own.
  lemma NeedsByChain(s: Statement, above: seq<Field>, r: Right)
    ensures Needs(s, above, r) <==> exists chain :: Down(s, chain) && OwnRight(ScopedAlong(chain, above), r)
  {
    if Needs(s, above, r) {
      var chain := NeedsChain(s, above, r);
    }
    forall chain | Down(s, chain) && OwnRight(ScopedAlong(chain, above), r) ensures Needs(s, above, r) {
      ChainNeeds(chain, above, r);
    }
  }

  lemma {:induction false} NeedsChain(s: Statement, above: seq<Field>, r: Right) returns (chain: seq<Statement>)
    requires Needs(s, above, r)
    ensures Down(s, chain) && OwnRight(ScopedAlong(chain, above), r)
  {
    var n := ScopeBareRead(s, above);
    if OwnRight(n, r) {
      chain := [s];
    } else {
      var below;
      if i :| 0 <= i < |s.subqueries| && Needs(s.subqueries[i], n.where, r) {
        below := NeedsChain(s.subqueries[i], n.where, r);
      } else {
        var i :| 0 <= i < |s.also| && Needs(s.also[i], n.where, r);
        below := NeedsChain(s.also[i], n.where, r);
      }
      chain := [s] + below;
      ChainGrows(s, below);
      assert chain[1..] == below;
    }
  }

  lemma {:induction false} ChainNeeds(chain: seq<Statement>, above: seq<Field>, r: Right)
    requires chain != [] && Nests(chain) && OwnRight(ScopedAlong(chain, above), r)
    ensures Needs(chain[0], above, r)
  {
    if |chain| > 1 {
      assert chain[1] == chain[0 + 1];
      ChainNeeds(chain[1..], ScopeBareRead(chain[0], above).where, r);
      NestedNeeds(chain[0], above, chain[1], r);
    }
  }

  // The statement tests f, or selects it.
  predicate NamesItself(s: Statement, f: Field) {
    f in s.where || (s.op.Select? && f in s.fields)
  }

  // f names a column of a table that is none of the statement's own.
  ghost predicate NamesForeign(s: Statement, f: Field) {
    (f in s.fields || f in s.where) && f.schema != "" && f.table != "" &&
      forall t :: t in s.tables ==> !(f.schema == t.schema && f.table == t.name)
  }

  // What scopes a select from below, and what reaches out of it, are exactly the
  // columns statements nested in it at any depth name.
  lemma NestedByChain(s: Statement, f: Field)
    ensures f in NestedFields(s) <==>
            exists chain :: Down(s, chain) && |chain| > 1 && NamesItself(chain[|chain| - 1], f)
  {
    if f in NestedFields(s) {
      var ss := if f in NestedFieldsIn(s.subqueries) then s.subqueries else s.also;
      var below := NestedChain(ss, f);
      ChainGrows(s, below);
    }
    forall chain | Down(s, chain) && |chain| > 1 && NamesItself(chain[|chain| - 1], f) ensures f in NestedFields(s) {
      ChainNests(chain, f);
    }
  }

  lemma {:induction false} NestedChain(ss: seq<Statement>, f: Field) returns (chain: seq<Statement>)
    requires f in NestedFieldsIn(ss)
    ensures chain != [] && chain[0] in ss && Nests(chain) && NamesItself(chain[|chain| - 1], f)
    decreases ss
  {
    var s := ss[0];
    if f in NamedBy(s) {
      chain := [s];
    } else if f in NestedFields(s) {
      var below;
      if f in NestedFieldsIn(s.subqueries) {
        below := NestedChain(s.subqueries, f);
      } else {
        below := NestedChain(s.also, f);
      }
      ChainGrows(s, below);
      chain := [s] + below;
    } else {
      chain := NestedChain(ss[1..], f);
    }
  }

  lemma {:induction false} NestedFrom(ss: seq<Statement>, s: Statement, f: Field)
    requires s in ss && (NamesItself(s, f) || f in NestedFields(s))
    ensures f in NestedFieldsIn(ss)
  {
    if s != ss[0] {
      assert ss == [ss[0]] + ss[1..];
      NestedFrom(ss[1..], s, f);
    }
  }

  lemma {:induction false} ChainNests(chain: seq<Statement>, f: Field)
    requires |chain| > 1 && Nests(chain) && NamesItself(chain[|chain| - 1], f)
    ensures f in NestedFields(chain[0])
  {
    var s, next := chain[0], chain[1];
    assert next == chain[0 + 1];
    if |chain| > 2 { ChainNests(chain[1..], f); }
    if next in s.subqueries { NestedFrom(s.subqueries, next, f); } else { NestedFrom(s.also, next, f); }
  }

  lemma ForeignIs(s: Statement, f: Field)
    ensures f in Foreign(s) <==> NamesForeign(s, f)
  {
    FilterMember((g: Field) => g.schema != "" && g.table != "" && !OwnsField(s, g), s.fields + s.where, f);
    if t :| t in s.tables && f.schema == t.schema && f.table == t.name { assert FieldOf(f, t); }
  }

  lemma ReachingByChain(s: Statement, f: Field)
    ensures f in ReachingOut(s) <==>
            exists chain :: Down(s, chain) && |chain| > 1 && NamesForeign(chain[|chain| - 1], f)
  {
    if f in ReachingOut(s) {
      var ss := if f in ReachingOutIn(s.subqueries) then s.subqueries else s.also;
      var below := ReachingChain(ss, f);
      ChainGrows(s, below);
    }
    forall chain | Down(s, chain) && |chain| > 1 && NamesForeign(chain[|chain| - 1], f) ensures f in ReachingOut(s) {
      ForeignIs(chain[|chain| - 1], f);
      ReachesEveryAncestor(chain, f);
    }
  }

  lemma {:induction false} ReachingChain(ss: seq<Statement>, f: Field) returns (chain: seq<Statement>)
    requires f in ReachingOutIn(ss)
    ensures chain != [] && chain[0] in ss && Nests(chain) && NamesForeign(chain[|chain| - 1], f)
    decreases ss
  {
    var s := ss[0];
    ForeignIs(s, f);
    if f in Foreign(s) {
      chain := [s];
    } else if f in ReachingOut(s) {
      var below;
      if f in ReachingOutIn(s.subqueries) {
        below := ReachingChain(s.subqueries, f);
      } else {
        below := ReachingChain(s.also, f);
      }
      ChainGrows(s, below);
      chain := [s] + below;
    } else {
      chain := ReachingChain(ss[1..], f);
    }
  }
}
