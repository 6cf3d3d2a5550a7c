// Taking out of a statement tree the tables that name something the statement
// declared itself, and splitting the tables a write changes from those it reads.
module VirtualTables {
  import opened Collections
  import opened Statements
  import opened Permissions
  import opened StatementChecks
  import opened StatementScoping

  type Normalizer = string -> string

  // A name written without a schema that the statement declared.
  predicate Declares(declared: set<string>, norm: Normalizer, t: Table) {
    t.bare && norm(t.name) in declared
  }

  function KeepTable(declared: set<string>, norm: Normalizer): Table -> Option<Table> {
    t => if Declares(declared, norm, t) then None else Some(t)
  }

  function Undeclared(tables: seq<Table>, declared: set<string>, norm: Normalizer): seq<Table> {
    Compacted(KeepTable(declared, norm), tables)
  }

  function DropDeclared(s: Statement, declared: set<string>, norm: Normalizer): Statement {
    s.(tables := Undeclared(s.tables, declared, norm), subqueries := DropDeclaredIn(s.subqueries, declared, norm))
  }

  function DropDeclaredIn(ss: seq<Statement>, declared: set<string>, norm: Normalizer): seq<Statement> {
    if ss == [] then [] else [DropDeclared(ss[0], declared, norm)] + DropDeclaredIn(ss[1..], declared, norm)
  }

  function Normalized(names: set<string>, norm: Normalizer): set<string> {
    set name | name in names :: norm(name)
  }

  function DropVirtual(ss: seq<Statement>, names: set<string>, norm: Normalizer): seq<Statement> {
    if names == {} then ss else DropDeclaredIn(ss, Normalized(names, norm), norm)
  }

  method DropVirtualTables(ss: seq<Statement>, names: set<string>, norm: Normalizer) returns (dropped: seq<Statement>)
    ensures dropped == DropVirtual(ss, names, norm)
  {
    if |names| == 0 {
      return ss;
    }
    dropped := DropDeclaredTables(ss, Normalized(names, norm), norm);
  }

  lemma DropDeclaredFrom(ss: seq<Statement>, i: nat, declared: set<string>, norm: Normalizer, done: seq<Statement>)
    requires i < |ss|
    ensures done + DropDeclaredIn(ss[i..], declared, norm) ==
            (done + [DropDeclared(ss[i], declared, norm)]) + DropDeclaredIn(ss[i + 1..], declared, norm)
  {
    assert ss[i..][0] == ss[i] && ss[i..][1..] == ss[i + 1..];
  }

  method DropDeclaredTables(ss: seq<Statement>, declared: set<string>, norm: Normalizer)
    returns (dropped: seq<Statement>)
    ensures dropped == DropDeclaredIn(ss, declared, norm)
  {
    dropped := [];
    for i := 0 to |ss|
      invariant dropped + DropDeclaredIn(ss[i..], declared, norm) == DropDeclaredIn(ss, declared, norm)
    {
      var s := ss[i];
      DropDeclaredFrom(ss, i, declared, norm, dropped);
      var tables := new Table[|s.tables|](j requires 0 <= j < |s.tables| => s.tables[j]);
      assert tables[..] == s.tables;
      var kept := CompactInPlace(tables, KeepTable(declared, norm));
      var subqueries := DropDeclaredTables(s.subqueries, declared, norm);
      dropped := dropped + [s.(tables := tables[..kept], subqueries := subqueries)];
    }
    assert ss[|ss|..] == [];
  }

  lemma {:induction false} UndeclaredMember(tables: seq<Table>, declared: set<string>, norm: Normalizer, t: Table)
    ensures t in Undeclared(tables, declared, norm) <==> t in tables && !Declares(declared, norm, t)
  {
    if tables != [] {
      UndeclaredMember(tables[1..], declared, norm, t);
      assert tables == [tables[0]] + tables[1..];
    }
  }

  lemma {:induction false} UndeclaredTwice(tables: seq<Table>, a: set<string>, b: set<string>, norm: Normalizer)
    ensures Undeclared(Undeclared(tables, a, norm), b, norm) == Undeclared(tables, a + b, norm)
  {
    if tables != [] {
      var kept := Undeclared(tables[1..], a, norm);
      UndeclaredTwice(tables[1..], a, b, norm);
      assert ([tables[0]] + kept)[1..] == kept;
    }
  }

  lemma {:induction false} DropDeclaredTwice(s: Statement, a: set<string>, b: set<string>, norm: Normalizer)
    ensures DropDeclared(DropDeclared(s, a, norm), b, norm) == DropDeclared(s, a + b, norm)
    decreases s, 1
  {
    UndeclaredTwice(s.tables, a, b, norm);
    DropDeclaredInTwice(s.subqueries, a, b, norm);
  }

  lemma {:induction false} DropDeclaredInTwice(ss: seq<Statement>, a: set<string>, b: set<string>, norm: Normalizer)
    ensures DropDeclaredIn(DropDeclaredIn(ss, a, norm), b, norm) == DropDeclaredIn(ss, a + b, norm)
    decreases ss, 0
  {
    if ss != [] {
      var rest := DropDeclaredIn(ss[1..], a, norm);
      DropDeclaredTwice(ss[0], a, b, norm);
      DropDeclaredInTwice(ss[1..], a, b, norm);
      assert ([DropDeclared(ss[0], a, norm)] + rest)[1..] == rest;
    }
  }

  // Dropping one scope's names and then another's is dropping both at once.
  lemma DropVirtualTwice(ss: seq<Statement>, a: set<string>, b: set<string>, norm: Normalizer)
    ensures DropVirtual(DropVirtual(ss, a, norm), b, norm) == DropVirtual(ss, a + b, norm)
  {
    if a == {} {
      assert a + b == b;
    } else if b == {} {
      assert a + b == a;
    } else {
      DropDeclaredInTwice(ss, Normalized(a, norm), Normalized(b, norm), norm);
      assert Normalized(a + b, norm) == Normalized(a, norm) + Normalized(b, norm);
    }
  }

  // The statement a path of subquery positions leads to.
  function At(ss: seq<Statement>, path: seq<nat>): Option<Statement>
    decreases path
  {
    if path == [] || path[0] >= |ss| then None
    else if |path| == 1 then Some(ss[path[0]])
    else At(ss[path[0]].subqueries, path[1..])
  }

  lemma {:induction false} DropDeclaredAt(ss: seq<Statement>, i: nat, declared: set<string>, norm: Normalizer)
    requires i < |ss|
    ensures |DropDeclaredIn(ss, declared, norm)| == |ss|
    ensures DropDeclaredIn(ss, declared, norm)[i] == DropDeclared(ss[i], declared, norm)
  {
    DropDeclaredLength(ss, declared, norm);
    if i > 0 {
      DropDeclaredAt(ss[1..], i - 1, declared, norm);
    }
  }

  lemma {:induction false} DropDeclaredLength(ss: seq<Statement>, declared: set<string>, norm: Normalizer)
    ensures |DropDeclaredIn(ss, declared, norm)| == |ss|
  {
    if ss != [] {
      DropDeclaredLength(ss[1..], declared, norm);
    }
  }

  // At every depth of subqueries exactly the bare declared tables go, the others
  // keep their order, and nothing else of the statement changes: what it also
  // performs keeps even its bare declared tables.
  lemma DropsExactlyDeclared(ss: seq<Statement>, names: set<string>, norm: Normalizer,
      path: seq<nat>)
    ensures var s, s' := At(ss, path), At(DropVirtual(ss, names, norm), path);
            && (s.Some? <==> s'.Some?)
            && (s.Some? ==>
                  && s'.value == s.value.(tables := s'.value.tables, subqueries := s'.value.subqueries)
                  && s'.value.tables == Filter(NotDeclared(names, norm), s.value.tables)
                  && |s'.value.subqueries| == |s.value.subqueries|)
  {
    if names == {} {
      if At(ss, path).Some? { FilterAll(NotDeclared(names, norm), At(ss, path).value.tables); }
    } else {
      DropsDeclaredAt(ss, names, norm, path);
      if At(ss, path).Some? { UndeclaredIsFilter(At(ss, path).value.tables, names, norm); }
    }
  }

  // Not a name written without a schema that the dialect reads as one of names.
  function NotDeclared(names: set<string>, norm: Normalizer): Table -> bool {
    (t: Table) => !(t.bare && exists name :: name in names && norm(name) == norm(t.name))
  }

  lemma {:induction false} UndeclaredIsFilter(tables: seq<Table>, names: set<string>, norm: Normalizer)
    ensures Undeclared(tables, Normalized(names, norm), norm) == Filter(NotDeclared(names, norm), tables)
  {
    if tables != [] {
      UndeclaredIsFilter(tables[1..], names, norm);
    }
  }

  lemma {:induction false} DropsDeclaredAt(ss: seq<Statement>, names: set<string>, norm: Normalizer, path: seq<nat>)
    requires names != {}
    ensures var s, s' := At(ss, path), At(DropVirtual(ss, names, norm), path);
            && (s.Some? <==> s'.Some?)
            && (s.Some? ==>
                  && s'.value == s.value.(tables := s'.value.tables, subqueries := s'.value.subqueries)
                  && s'.value.tables == Undeclared(s.value.tables, Normalized(names, norm), norm)
                  && |s'.value.subqueries| == |s.value.subqueries|)
    decreases path
  {
    var declared := Normalized(names, norm);
    DropDeclaredLength(ss, declared, norm);
    if path != [] && path[0] < |ss| {
      DropDeclaredAt(ss, path[0], declared, norm);
      var s := ss[path[0]];
      DropDeclaredLength(s.subqueries, declared, norm);
      if |path| > 1 {
        DropsDeclaredAt(s.subqueries, names, norm, path[1..]);
      }
    }
  }

  // ---- What dropping leaves behind ----

  // No bare declared table anywhere in the tree.
  ghost predicate NoneDeclared(s: Statement, declared: set<string>, norm: Normalizer) {
    && (forall t :: t in s.tables ==> !Declares(declared, norm, t))
    && (forall i :: 0 <= i < |s.subqueries| ==> NoneDeclared(s.subqueries[i], declared, norm))
    && (forall i :: 0 <= i < |s.also| ==> NoneDeclared(s.also[i], declared, norm))
  }

  // What the statements of the tree also perform, at any depth, holds none.
  ghost predicate NoneBeside(s: Statement, declared: set<string>, norm: Normalizer) {
    && (forall i :: 0 <= i < |s.also| ==> NoneDeclared(s.also[i], declared, norm))
    && (forall i :: 0 <= i < |s.subqueries| ==> NoneBeside(s.subqueries[i], declared, norm))
  }

  // Dropping rids the whole tree of declared tables exactly when none was named
  // by a statement performed alongside.
  lemma {:induction false} DropsThroughout(s: Statement, declared: set<string>, norm: Normalizer)
    ensures NoneDeclared(DropDeclared(s, declared, norm), declared, norm) <==> NoneBeside(s, declared, norm)
  {
    var s' := DropDeclared(s, declared, norm);
    forall t | t in s'.tables ensures !Declares(declared, norm, t) {
      UndeclaredMember(s.tables, declared, norm, t);
    }
    DropDeclaredLength(s.subqueries, declared, norm);
    forall i | 0 <= i < |s.subqueries|
      ensures NoneDeclared(s'.subqueries[i], declared, norm) <==> NoneBeside(s.subqueries[i], declared, norm)
    {
      DropDeclaredAt(s.subqueries, i, declared, norm);
      DropsThroughout(s.subqueries[i], declared, norm);
    }
  }

  // A delete that reads the declared c beside the table it deletes from.
  const CTE_TABLE := Table("c", "", None, true)
  const USING_CTE := Statement(Delete, [], [Table("t", "s", None, false)], [], [], [ReadOf([CTE_TABLE])], false, false)

  lemma DropsNotThroughout(norm: Normalizer)
    ensures var dropped := DropVirtual([USING_CTE], {"c"}, norm);
            && |dropped| == 1 && |dropped[0].also| == 1 && CTE_TABLE in dropped[0].also[0].tables
            && Declares(Normalized({"c"}, norm), norm, CTE_TABLE)
            && !NoneBeside(USING_CTE, Normalized({"c"}, norm), norm)
  {
    DropDeclaredLength([USING_CTE], Normalized({"c"}, norm), norm);
    DropDeclaredAt([USING_CTE], 0, Normalized({"c"}, norm), norm);
    assert CTE_TABLE in ReadOf([CTE_TABLE]).tables && "c" in {"c"};
    assert USING_CTE.also[0] == ReadOf([CTE_TABLE]);
  }

  // The names the body of the CTE at idx can refer to.
  function CTEScope(names: seq<string>, idx: nat, recursive: bool): set<string> {
    var visible := if recursive then names else names[..if idx < |names| then idx else |names|];
    set name | name in visible
  }

  // A body sees exactly the names declared before it, or all of them when the
  // clause is recursive; so a plain WITH never hides a table from the CTE named after it.
  lemma CTESeesEarlier(names: seq<string>, idx: nat, recursive: bool, name: string)
    ensures name in CTEScope(names, idx, recursive) <==>
            exists j :: 0 <= j < |names| && names[j] == name && (recursive || j < idx)
  {
    if !recursive {
      var visible := names[..if idx < |names| then idx else |names|];
      assert forall j :: 0 <= j < |visible| ==> visible[j] == names[j];
      if j :| 0 <= j < |names| && names[j] == name && j < idx {
        assert visible[j] == name;
      }
    }
  }

  // ---- Splitting a write ----

  function TableKey(t: Table): (string, string) {
    (t.schema, t.name)
  }

  function KeyIn(keys: set<(string, string)>): Table -> bool {
    t => TableKey(t) in keys
  }

  function KeyOut(keys: set<(string, string)>): Table -> bool {
    t => TableKey(t) !in keys
  }

  function Named(keys: set<(string, string)>, tables: seq<Table>): seq<Table> {
    Filter(KeyIn(keys), tables)
  }

  function Unnamed(keys: set<(string, string)>, tables: seq<Table>): seq<Table> {
    Filter(KeyOut(keys), tables)
  }

  lemma NamedMembers(keys: set<(string, string)>, tables: seq<Table>)
    ensures forall t :: t in Named(keys, tables) <==> t in tables && TableKey(t) in keys
    ensures forall t :: t in Unnamed(keys, tables) <==> t in tables && TableKey(t) !in keys
  {
    forall t ensures t in Named(keys, tables) <==> t in tables && TableKey(t) in keys {
      FilterMember(KeyIn(keys), tables, t);
    }
    forall t ensures t in Unnamed(keys, tables) <==> t in tables && TableKey(t) !in keys {
      FilterMember(KeyOut(keys), tables, t);
    }
  }

  function FieldKeys(fields: seq<Field>): set<(string, string)> {
    set f | f in fields :: (f.schema, f.table)
  }

  function TableKeys(tables: seq<Table>): set<(string, string)> {
    set t | t in tables :: TableKey(t)
  }

  method TablesNamedBy(all: seq<Table>, fields: seq<Field>) returns (held: seq<Table>)
    ensures held == Named(FieldKeys(fields), all) == Filter(SomeColumn(fields), all)
  {
    NamedExactly(all, fields, []);
    var keys := FieldKeys(fields);
    held := [];
    for i := 0 to |all|
      invariant held == Named(keys, all[..i])
    {
      assert all[..i + 1] == all[..i] + [all[i]];
      FilterConcat(KeyIn(keys), all[..i], [all[i]]);
      if TableKey(all[i]) in keys {
        held := held + [all[i]];
      }
    }
    assert all[..|all|] == all;
  }

  method TablesExcept(all: seq<Table>, keep: seq<Table>) returns (rest: seq<Table>)
    ensures rest == Unnamed(TableKeys(keep), all) == Filter(NotAmong(keep), all)
  {
    NamedExactly(all, [], keep);
    var keys := TableKeys(keep);
    rest := [];
    for i := 0 to |all|
      invariant rest == Unnamed(keys, all[..i])
    {
      assert all[..i + 1] == all[..i] + [all[i]];
      FilterConcat(KeyOut(keys), all[..i], [all[i]]);
      if TableKey(all[i]) !in keys {
        rest := rest + [all[i]];
      }
    }
    assert all[..|all|] == all;
  }

  function ReadOf(tables: seq<Table>): Statement {
    Statement(Select, [], tables, [], [], [], false, false)
  }

  // A write keeps the tables its fields name and reads the others; one whose
  // fields name no table writes all of them.
  function Split(s: Statement): Statement {
    var keys := FieldKeys(s.fields);
    var written, rest := Named(keys, s.tables), Unnamed(keys, s.tables);
    if written == [] then s
    else s.(tables := written, also := if rest == [] then s.also else s.also + [ReadOf(rest)])
  }

  method SplitWrite(s: Statement) returns (split: Statement)
    ensures split == Split(s)
  {
    var written := TablesNamedBy(s.tables, s.fields);
    split := s;
    if |written| == 0 {
      return;
    }
    var rest := TablesExcept(s.tables, written);
    ExceptWritten(s.tables, FieldKeys(s.fields));
    if |rest| > 0 {
      split := split.(also := split.also + [ReadOf(rest)]);
    }
    split := split.(tables := written);
  }

  lemma ExceptWritten(tables: seq<Table>, keys: set<(string, string)>)
    ensures Unnamed(TableKeys(Named(keys, tables)), tables) == Unnamed(keys, tables)
  {
    NamedMembers(keys, tables);
    var written := Named(keys, tables);
    forall t | t in tables ensures TableKey(t) in TableKeys(written) <==> TableKey(t) in keys {
      if TableKey(t) in keys { assert t in written; }
    }
    FilterSame(KeyOut(TableKeys(written)), KeyOut(keys), tables);
  }

  lemma KeysAreNames(fields: seq<Field>, t: Table)
    ensures TableKey(t) in FieldKeys(fields) <==> Names(fields, t)
  {
    if Names(fields, t) {
      var f :| f in fields && FieldOf(f, t);
      assert (f.schema, f.table) in FieldKeys(fields);
    }
    if TableKey(t) in FieldKeys(fields) {
      var f :| f in fields && (f.schema, f.table) == TableKey(t);
      assert FieldOf(f, t);
    }
  }

  // One of the fields is a column of the table.
  function SomeColumn(fields: seq<Field>): Table -> bool {
    (t: Table) => exists f :: f in fields && f.schema == t.schema && f.table == t.name
  }

  function NoColumn(fields: seq<Field>): Table -> bool {
    (t: Table) => forall f :: f in fields ==> !(f.schema == t.schema && f.table == t.name)
  }

  // None of the tables has this schema and name.
  function NotAmong(tables: seq<Table>): Table -> bool {
    (t: Table) => forall k :: k in tables ==> !(k.schema == t.schema && k.name == t.name)
  }

  lemma KeysAreColumns(fields: seq<Field>, t: Table)
    ensures TableKey(t) in FieldKeys(fields) <==> SomeColumn(fields)(t)
    ensures TableKey(t) !in FieldKeys(fields) <==> NoColumn(fields)(t)
  {
    KeysAreNames(fields, t);
    if f :| f in fields && f.schema == t.schema && f.table == t.name { assert FieldOf(f, t); }
  }

  // The tables a field belongs to, the others, and those not to keep, in order.
  lemma NamedExactly(all: seq<Table>, fields: seq<Field>, keep: seq<Table>)
    ensures Named(FieldKeys(fields), all) == Filter(SomeColumn(fields), all)
    ensures Unnamed(FieldKeys(fields), all) == Filter(NoColumn(fields), all)
    ensures Unnamed(TableKeys(keep), all) == Filter(NotAmong(keep), all)
  {
    forall t
      ensures TableKey(t) in FieldKeys(fields) <==> SomeColumn(fields)(t)
      ensures TableKey(t) !in FieldKeys(fields) <==> NoColumn(fields)(t)
    {
      KeysAreColumns(fields, t);
    }
    FilterSame(KeyIn(FieldKeys(fields)), SomeColumn(fields), all);
    FilterSame(KeyOut(FieldKeys(fields)), NoColumn(fields), all);
    forall t ensures TableKey(t) !in TableKeys(keep) <==> NotAmong(keep)(t) {
    }
    FilterSame(KeyOut(TableKeys(keep)), NotAmong(keep), all);
  }

  // A write whose fields name some of its tables keeps those, in order, and reads
  // the others, in order, in a bare select beside it; any other stays as it is.
  lemma SplitExactly(s: Statement)
    ensures var written, rest := Filter(SomeColumn(s.fields), s.tables), Filter(NoColumn(s.fields), s.tables);
            Split(s) ==
            if written == [] then s
            else if rest == [] then s.(tables := written)
            else s.(tables := written, also := s.also + [Statement(Select, [], rest, [], [], [], false, false)])
  {
    NamedExactly(s.tables, s.fields, []);
  }

  // Splitting loses no table, a table is written exactly when a field names it,
  // and a split write asks for no right on a whole table it writes.
  lemma SplitAsksPerColumn(s: Statement)
    requires ActsOnRows(s) && IsWrite(s.op) && exists t :: t in s.tables && Names(s.fields, t)
    ensures var s' := Split(s);
            && multiset(s.tables) ==
               multiset(s'.tables) + (if s'.also == s.also then multiset{} else multiset(s'.also[|s.also|].tables))
            && (forall t :: t in s'.tables <==> t in s.tables && Names(s.fields, t))
            && (forall t, r :: t in s'.tables && TableRight(s', t, r) && r.On? ==>
                  (exists f :: f in s.fields && FieldOf(f, t) && r == ColumnRight(t, f, ActionOf(s.op)))
                  || AsksColumn(Tested(s'), t, SELECT, r))
  {
    var keys, s' := FieldKeys(s.fields), Split(s);
    NamedMembers(keys, s.tables);
    FilterSplits(KeyIn(keys), KeyOut(keys), s.tables);
    forall t | t in s.tables ensures Names(s.fields, t) <==> TableKey(t) in keys {
      KeysAreNames(s.fields, t);
    }
    var w :| w in s.tables && Names(s.fields, w);
    assert w in Named(keys, s.tables);
    assert Scoping(s') == s.fields;
  }

  // No table a split write only reads escapes the check: the tree still asks for
  // select on every column of it the write tests, or as a whole where it tests none.
  lemma SplitStillAsksForReads(s: Statement, above: seq<Field>, t: Table)
    requires t in s.tables && t.schema != "" && !Names(s.fields, t) && exists w :: w in s.tables && Names(s.fields, w)
    ensures if Names(s.where, t)
            then forall f :: f in s.where && FieldOf(f, t) ==> Needs(Split(s), above, ColumnRight(t, f, SELECT))
            else Needs(Split(s), above, On(t.schema, t.name, "", SELECT))
  {
    var s' := Split(s);
    var read := SplitRead(s, t);
    assert s'.fields != [] && ScopeBareRead(s', above) == s';
    if Names(s.where, t) {
      forall f | f in s.where && FieldOf(f, t) ensures Needs(s', above, ColumnRight(t, f, SELECT)) {
        BareReadIsAsked(s', above, read, f);
      }
    } else {
      WholeReadIsAsked(read, s.where, t);
      NestedNeeds(s', above, read, On(t.schema, t.name, "", SELECT));
    }
  }

  // The read that splitting sets beside the write for a table no field names.
  lemma SplitRead(s: Statement, t: Table) returns (read: Statement)
    requires t in s.tables && !Names(s.fields, t) && exists w :: w in s.tables && Names(s.fields, w)
    ensures read in Split(s).also && read == ReadOf(read.tables) && t in read.tables
    ensures Split(s).where == s.where && Split(s).fields == s.fields != []
  {
    var keys := FieldKeys(s.fields);
    NamedMembers(keys, s.tables);
    var w :| w in s.tables && Names(s.fields, w);
    KeysAreNames(s.fields, w);
    KeysAreNames(s.fields, t);
    assert w in Named(keys, s.tables) && t in Unnamed(keys, s.tables);
    read := ReadOf(Unnamed(keys, s.tables));
    assert Split(s).also[|s.also|] == read;
  }

  lemma WholeReadIsAsked(read: Statement, tested: seq<Field>, t: Table)
    requires read == ReadOf(read.tables) && t in read.tables && t.schema != "" && !Names(tested, t)
    ensures Needs(read, tested, On(t.schema, t.name, "", SELECT))
  {
    var scoped := ScopeBareRead(read, tested);
    assert NestedFields(scoped) == [];
    forall f | f in Scoping(scoped) ensures !FieldOf(f, t) {
      FilterMember((g: Field) => OwnsField(read, g), tested, f);
    }
    assert TableRight(scoped, t, On(t.schema, t.name, "", SELECT));
    assert OwnRight(scoped, On(t.schema, t.name, "", SELECT));
  }

  // Splitting loses no test: every column a write tests of any of its tables,
  // written or only read, is asked for with select.
  lemma SplitAsksEveryTest(s: Statement, above: seq<Field>, t: Table, f: Field)
    requires ActsOnRows(s) && IsWrite(s.op) && t in s.tables && t.schema != "" && f in s.where && FieldOf(f, t)
    ensures Needs(Split(s), above, ColumnRight(t, f, SELECT))
  {
    var s', keys := Split(s), FieldKeys(s.fields);
    NamedMembers(keys, s.tables);
    KeysAreNames(s.fields, t);
    assert ScopeBareRead(s', above) == s';
    if t in s'.tables {
      OwnReadIsAsked(s', above, f);
    } else {
      var w := Named(keys, s.tables)[0];
      assert w in Named(keys, s.tables);
      KeysAreNames(s.fields, w);
      SplitStillAsksForReads(s, above, t);
    }
  }
}
