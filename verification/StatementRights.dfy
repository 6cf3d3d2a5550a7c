// What acceptance means in terms of the plain list of rules, how it moves when
// rules are added, and what the floor for unreadable text covers.
module StatementRights {
  import opened Collections
  import opened Statements
  import opened Permissions
  import opened StatementChecks

  // Acceptance by the list itself: some allow entry and no deny entry matches
  // each right the statements need.
  ghost predicate AcceptsByList(entries: seq<PermissionEntry>, denyUnmanaged: bool, ds: string,
      statements: seq<Statement>) {
    ManagedBy(entries, denyUnmanaged, ds) ==>
      forall s, r :: s in statements && Needs(s, [], r) ==> Permits(entries, ds, r)
  }

  // The compiled early-exit check decides exactly as the list does.
  lemma CheckDecidesByList(idx: Compiled, entries: seq<PermissionEntry>, ds: string, statements: seq<Statement>)
    requires Represents(idx, entries)
    ensures Accepts(idx, ds, statements) <==> AcceptsByList(entries, idx.denyUnmanaged, ds, statements)
  {
    forall r ensures Holds(idx, ds, r) <==> Permits(entries, ds, r) {
      CompiledDecides(idx, entries, ds, r);
    }
    CompiledDecides(idx, entries, ds, Nobody);
  }

  // Only which rules and which statements there are matters, never their order or repetition.
  lemma OrderIsIgnored(entries: seq<PermissionEntry>, entries': seq<PermissionEntry>, denyUnmanaged: bool, ds: string,
                       statements: seq<Statement>, statements': seq<Statement>)
    requires forall e :: e in entries <==> e in entries'
    requires forall s :: s in statements <==> s in statements'
    ensures AcceptsByList(entries, denyUnmanaged, ds, statements) <==>
              AcceptsByList(entries', denyUnmanaged, ds, statements')
  {
    forall r ensures Permits(entries, ds, r) <==> Permits(entries', ds, r) {
    }
  }

  lemma AddedRule(entries: seq<PermissionEntry>, e: PermissionEntry, ds: string, r: Right)
    ensures ManagedBy(entries, false, ds) ==> ManagedBy(entries + [e], false, ds)
    ensures Denies(e) && Permits(entries + [e], ds, r) ==> Permits(entries, ds, r)
    ensures !Denies(e) && Permits(entries, ds, r) ==> Permits(entries + [e], ds, r)
  {
    assert forall x :: x in entries + [e] <==> x in entries || x == e;
  }

  // A deny never turns a refusal into an acceptance.
  lemma DenyOnlyRefuses(entries: seq<PermissionEntry>, e: PermissionEntry, denyUnmanaged: bool, ds: string,
                        statements: seq<Statement>)
    requires Denies(e) && AcceptsByList(entries + [e], denyUnmanaged, ds, statements)
    ensures AcceptsByList(entries, denyUnmanaged, ds, statements)
  {
    AddedRule(entries, e, ds, Nobody);
    if ManagedBy(entries, denyUnmanaged, ds) {
      forall s, r | s in statements && Needs(s, [], r) ensures Permits(entries, ds, r) {
        AddedRule(entries, e, ds, r);
      }
    }
  }

  // A read of a table that resolved to no schema, which every managed check refuses.
  const UNRESOLVED := Statement(Select, [], [Table("t", "", None, true)], [], [], [], false, false)

  // An allow keeps every acceptance exactly when it is not the rule that makes
  // the datasource managed.
  lemma AllowKeepsAcceptance(entries: seq<PermissionEntry>, e: PermissionEntry, denyUnmanaged: bool, ds: string)
    requires !Denies(e)
    ensures (forall statements :: AcceptsByList(entries, denyUnmanaged, ds, statements) ==>
                                    AcceptsByList(entries + [e], denyUnmanaged, ds, statements))
            <==> ManagedBy(entries, denyUnmanaged, ds) || e.datasource.None? || Wildcard(e.datasource) != ds
  {
    assert forall x :: x in entries + [e] <==> x in entries || x == e;
    if ManagedBy(entries, denyUnmanaged, ds) || e.datasource.None? || Wildcard(e.datasource) != ds {
      forall statements | AcceptsByList(entries, denyUnmanaged, ds, statements)
        ensures AcceptsByList(entries + [e], denyUnmanaged, ds, statements)
      {
        if ManagedBy(entries + [e], denyUnmanaged, ds) {
          forall s, r | s in statements && Needs(s, [], r) ensures Permits(entries + [e], ds, r) {
            AddedRule(entries, e, ds, r);
          }
        }
      }
    } else {
      UnresolvedNeedsNobody();
      assert e in entries + [e];
      assert UNRESOLVED in [UNRESOLVED];
      assert AcceptsByList(entries, denyUnmanaged, ds, [UNRESOLVED]);
      assert !AcceptsByList(entries + [e], denyUnmanaged, ds, [UNRESOLVED]);
    }
  }

  lemma UnresolvedNeedsNobody()
    ensures Needs(UNRESOLVED, [], Nobody)
  {
    var s := UNRESOLVED;
    assert ScopeBareRead(s, []) == s;
    assert s.tables[0] in s.tables && TableRight(s, s.tables[0], Nobody);
    assert OwnRight(s, Nobody);
  }

  // ---- A rule that names no datasource ----

  // A rule naming no datasource covers what it would cover on a datasource it
  // named, exactly where the lookup itself is for no datasource.
  lemma UnnamedDatasourceCovers(e: PermissionEntry, ds: string, schema: string, table: string, column: string,
      action: string)
    requires Wildcard(e.datasource) == ""
    ensures Covers(KeyOf(e), ds, schema, table, column, action) <==>
              ds == "" && Covers(KeyOf(e.(datasource := Some(ds))), ds, schema, table, column, action)
  {
  }

  const EVERYWHERE := PermissionEntry(None, None, None, None, SELECT, "allow", "reader")

  // Such an allow, naming nothing at all, permits nothing on a named datasource.
  lemma UnnamedAllowPermitsNothing(ds: string, r: Right)
    ensures Permits([EVERYWHERE], ds, r) ==> ds == ""
    ensures Permits([EVERYWHERE], "", On("s", "t", "c", SELECT))
    ensures !Permits([EVERYWHERE], "db", On("s", "t", "c", SELECT))
    ensures Permits([EVERYWHERE.(datasource := Some("db"))], "db", On("s", "t", "c", SELECT))
  {
    assert EVERYWHERE in [EVERYWHERE];
    var named := EVERYWHERE.(datasource := Some("db"));
    assert named in [named] && Covers(KeyOf(named), "db", "s", "t", "c", SELECT);
    assert Covers(KeyOf(EVERYWHERE), "", "s", "t", "c", SELECT);
  }

  // On a named datasource, adding an allow that names none changes no decision.
  lemma UnnamedAllowChangesNothing(entries: seq<PermissionEntry>, e: PermissionEntry, denyUnmanaged: bool, ds: string,
                                   statements: seq<Statement>)
    requires !Denies(e) && Wildcard(e.datasource) == "" && ds != ""
    ensures forall r :: Permits(entries + [e], ds, r) <==> Permits(entries, ds, r)
    ensures AcceptsByList(entries + [e], denyUnmanaged, ds, statements) <==>
              AcceptsByList(entries, denyUnmanaged, ds, statements)
  {
    assert forall x :: x in entries + [e] <==> x in entries || x == e;
    forall r ensures Permits(entries + [e], ds, r) <==> Permits(entries, ds, r) {
      AddedRule(entries, e, ds, r);
    }
  }

  // Adding a deny that names none refuses only its action anywhere on the
  // connection, which is what text nobody could read needs.
  lemma UnnamedDenyRefusesAnywhere(entries: seq<PermissionEntry>, e: PermissionEntry, ds: string, r: Right)
    requires Denies(e) && Wildcard(e.datasource) == "" && ds != ""
    ensures Permits(entries + [e], ds, r) <==> Permits(entries, ds, r) && r != Anywhere(e.action)
  {
    assert forall x :: x in entries + [e] <==> x in entries || x == e;
    AddedRule(entries, e, ds, r);
  }

  lemma UnnamedDenyDecides(entries: seq<PermissionEntry>, e: PermissionEntry, denyUnmanaged: bool, ds: string,
                           statements: seq<Statement>)
    requires Denies(e) && Wildcard(e.datasource) == "" && ds != ""
    ensures AcceptsByList(entries + [e], denyUnmanaged, ds, statements) <==>
              && AcceptsByList(entries, denyUnmanaged, ds, statements)
              && (ManagedBy(entries, denyUnmanaged, ds) ==>
                    forall s :: s in statements ==> !Needs(s, [], Anywhere(e.action)))
  {
    assert forall x :: x in entries + [e] <==> x in entries || x == e;
    forall r ensures Permits(entries + [e], ds, r) <==> Permits(entries, ds, r) && r != Anywhere(e.action) {
      UnnamedDenyRefusesAnywhere(entries, e, ds, r);
    }
  }

  // ---- The floor for text nobody could read ----

  // Every statement of the tree checked table by table names only tables with a schema.
  ghost predicate Resolved(s: Statement) {
    && (ActsOnRows(s) ==> forall t :: t in s.tables ==> t.schema != "")
    && (forall i :: 0 <= i < |s.subqueries| ==> Resolved(s.subqueries[i]))
    && (forall i :: 0 <= i < |s.also| ==> Resolved(s.also[i]))
  }

  predicate Floored(r: Right) {
    match r
    case On(_, _, _, action) => action in FLOOR
    case Anywhere(action) => action in FLOOR
    case Nobody => false
  }

  lemma FloorActions()
    ensures forall op: Operation :: !op.Transaction? ==> ActionOf(op) in FLOOR
    ensures SELECT in FLOOR && MANAGE in FLOOR
  {
    assert FLOOR[0] == MANAGE && FLOOR[1] == SELECT && FLOOR[2] == INSERT && FLOOR[3] == UPDATE && FLOOR[4] == DELETE;
  }

  lemma {:induction false} ResolvedNeedsFloored(s: Statement, above: seq<Field>, r: Right)
    requires Resolved(s) && Needs(s, above, r)
    ensures Floored(r)
  {
    var n := ScopeBareRead(s, above);
    FloorActions();
    if i :| 0 <= i < |s.subqueries| && Needs(s.subqueries[i], n.where, r) {
      ResolvedNeedsFloored(s.subqueries[i], n.where, r);
    } else if i :| 0 <= i < |s.also| && Needs(s.also[i], n.where, r) {
      ResolvedNeedsFloored(s.also[i], n.where, r);
    } else {
      assert OwnRight(n, r);
    }
  }

  lemma {:induction false} UnresolvedNeeds(s: Statement, above: seq<Field>)
    requires !Resolved(s)
    ensures Needs(s, above, Nobody)
  {
    var n := ScopeBareRead(s, above);
    if ActsOnRows(s) && exists t :: t in s.tables && t.schema == "" {
      var t :| t in s.tables && t.schema == "";
      assert TableRight(n, t, Nobody);
      assert OwnRight(n, Nobody);
    } else if i :| 0 <= i < |s.subqueries| && !Resolved(s.subqueries[i]) {
      UnresolvedNeeds(s.subqueries[i], n.where);
    } else {
      var i :| 0 <= i < |s.also| && !Resolved(s.also[i]);
      UnresolvedNeeds(s.also[i], n.where);
    }
  }

  // A role that may run text nobody could read may run every statement tree,
  // except exactly those reading or writing a table with no schema.
  lemma FloorDominates(idx: Compiled, ds: string, unread: Statement, s: Statement)
    requires unread.unreadable && AllHold(idx, ds, unread, [])
    ensures AllHold(idx, ds, s, []) <==> Resolved(s)
  {
    forall action | action in FLOOR ensures Holds(idx, ds, Anywhere(action)) {
      assert OwnRight(ScopeBareRead(unread, []), Anywhere(action));
      assert Needs(unread, [], Anywhere(action));
    }
    if Resolved(s) {
      forall r | Needs(s, [], r) ensures Holds(idx, ds, r) {
        ResolvedNeedsFloored(s, [], r);
        if r.On? {
          AnywhereCovers(idx, ds, r.schema, r.table, r.column, r.action);
        }
      }
    } else {
      UnresolvedNeeds(s, []);
    }
  }
}
