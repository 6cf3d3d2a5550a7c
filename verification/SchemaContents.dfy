// The order of the sorted rows and the contents of each schema, row by row.
module SchemaContents {
  import opened Collections
  import opened Ordering
  import opened SchemaRows

  // ---- The order of names ----

  // a and b agree up to k, where a ends first or has the smaller character.
  predicate PartAt(a: string, b: string, k: nat) {
    k <= |a| && k < |b| && a[..k] == b[..k] && (k == |a| || a[k] < b[k])
  }

  ghost predicate LexBefore(a: string, b: string) {
    exists k :: PartAt(a, b, k)
  }

  lemma PartNext(a: string, b: string, k: nat)
    requires a != [] && b != [] && a[0] == b[0]
    ensures PartAt(a, b, k + 1) <==> PartAt(a[1..], b[1..], k)
  {
    if k < |a| && k < |b| {
      assert a[..k + 1] == [a[0]] + a[1..][..k] && b[..k + 1] == [b[0]] + b[1..][..k];
      assert a[..k + 1][1..] == a[1..][..k] && b[..k + 1][1..] == b[1..][..k];
    }
  }

  lemma LexNext(a: string, b: string)
    requires a != [] && b != [] && a[0] == b[0]
    ensures LexBefore(a, b) <==> LexBefore(a[1..], b[1..])
  {
    if k: nat :| PartAt(a[1..], b[1..], k) {
      PartNext(a, b, k);
    }
    if k: nat :| PartAt(a, b, k) {
      assert k > 0;
      PartNext(a, b, k - 1);
    }
  }

  lemma LexFirst(a: string, b: string)
    requires a == [] || b == [] || a[0] != b[0]
    ensures LexBefore(a, b) <==> b != [] && (a == [] || a[0] < b[0])
  {
    assert a[..0] == b[..0];
    assert PartAt(a, b, 0) <==> b != [] && (a == [] || a[0] < b[0]);
    if k: nat :| PartAt(a, b, k) && k > 0 {
      assert a[..k][0] == b[..k][0];
    }
  }

  lemma {:induction false} BeforeExactly(a: string, b: string)
    ensures CompareStrings(a, b) < 0 <==> LexBefore(a, b)
  {
    if a != [] && b != [] && a[0] == b[0] {
      LexNext(a, b);
      BeforeExactly(a[1..], b[1..]);
    } else {
      LexFirst(a, b);
    }
  }

  lemma StringsExactly(a: string, b: string)
    ensures CompareStrings(a, b) < 0 <==> LexBefore(a, b)
    ensures CompareStrings(a, b) > 0 <==> LexBefore(b, a)
    ensures CompareStrings(a, b) == 0 <==> a == b
  {
    StringsFlip(a, b);
    BeforeExactly(a, b);
    BeforeExactly(b, a);
  }

  // By the lowered names, and by the names themselves where those are the same.
  ghost predicate NameBefore(lower: string -> string, a: string, b: string) {
    LexBefore(lower(a), lower(b)) || (lower(a) == lower(b) && LexBefore(a, b))
  }

  lemma NamesExactly(lower: string -> string, a: string, b: string)
    ensures CompareNames(lower, a, b) < 0 <==> NameBefore(lower, a, b)
    ensures CompareNames(lower, a, b) > 0 <==> NameBefore(lower, b, a)
    ensures CompareNames(lower, a, b) == 0 <==> a == b
  {
    StringsExactly(lower(a), lower(b));
    StringsExactly(a, b);
  }

  // ---- Stable sorting ----

  type Before<!T> = (T, T) -> bool

  // Whether before does not tell a row from z.
  function Ties<T(!new)>(before: Before<T>, z: T): T -> bool {
    (x: T) => !before(x, z) && !before(z, x)
  }

  // t holds the rows of s in the order of before, rows it does not tell apart in
  // the order they had.
  ghost predicate StablyBy<T(!new)>(before: Before<T>, s: seq<T>, t: seq<T>) {
    && multiset(s) == multiset(t)
    && (forall i, j :: 0 <= i < j < |t| ==> !before(t[j], t[i]))
    && (forall z :: Filter(Ties(before, z), t) == Filter(Ties(before, z), s))
  }

  lemma {:induction false} InsertTies<T(!new)>(cmp: Compare<T>, p: T -> bool, x: T, s: seq<T>)
    requires forall e :: p(x) && p(e) ==> cmp(x, e) <= 0
    ensures Filter(p, Insert(cmp, x, s)) == Filter(p, [x] + s)
  {
    assert ([x] + s)[1..] == s;
    if s != [] && cmp(x, s[0]) > 0 {
      InsertTies(cmp, p, x, s[1..]);
      assert ([x] + s[1..])[1..] == s[1..];
    }
  }

  lemma {:induction false} SortTies<T(!new)>(cmp: Compare<T>, p: T -> bool, s: seq<T>)
    requires forall x, e :: p(x) && p(e) ==> cmp(x, e) <= 0
    ensures Filter(p, SortStable(cmp, s)) == Filter(p, s)
  {
    if s != [] {
      var rest := SortStable(cmp, s[1..]);
      SortTies(cmp, p, s[1..]);
      InsertTies(cmp, p, s[0], rest);
      assert ([s[0]] + rest)[1..] == rest;
    }
  }

  lemma SortIsStable<T(!new)>(cmp: Compare<T>, before: Before<T>, s: seq<T>)
    requires Orders(cmp) && forall a, b :: before(a, b) <==> cmp(a, b) < 0
    ensures StablyBy(before, s, SortStable(cmp, s))
  {
    var t := SortStable(cmp, s);
    SortKeeps(cmp, s);
    SortSorts(cmp, s);
    forall i, j | 0 <= i < j < |t| ensures !before(t[j], t[i]) {
      SortedAt(cmp, t, i, j);
    }
    forall z ensures Filter(Ties(before, z), t) == Filter(Ties(before, z), s) {
      forall x, e ensures Ties(before, z)(x) && Ties(before, z)(e) ==> cmp(x, e) <= 0 {
        if Ties(before, z)(x) && Ties(before, z)(e) {
          assert cmp(x, z) == 0 && cmp(z, e) == 0;
        }
      }
      SortTies(cmp, Ties(before, z), s);
    }
  }

  // ---- The order of each kind of row ----

  ghost function NamedBefore<T(!new)>(lower: string -> string, name: T -> string): Before<T> {
    (a: T, b: T) => NameBefore(lower, name(a), name(b))
  }

  ghost function PairedBefore<T(!new)>(lower: string -> string, first: T -> string, second: T -> string): Before<T> {
    (a: T, b: T) =>
      NameBefore(lower, first(a), first(b)) || (first(a) == first(b) && NameBefore(lower, second(a), second(b)))
  }

  ghost function PlacedBefore<T(!new)>(position: T -> int): Before<T> {
    (a: T, b: T) => position(a) < position(b)
  }

  // Catalogs come last.
  ghost function SchemaBefore(lower: string -> string): Before<SchemaRow> {
    (a: SchemaRow, b: SchemaRow) => if a.catalog == b.catalog then NameBefore(lower, a.name, b.name) else b.catalog
  }

  ghost function FunctionBefore(lower: string -> string): Before<FunctionRow> {
    (a: FunctionRow, b: FunctionRow) => NameBefore(lower, a.name, b.name) || (a.name == b.name && a.oid < b.oid)
  }

  // Every kind of row in its own order: schemas with catalogs last, and then by
  // name; relations by schema and name; indexes by table and name; functions by
  // name and object id; columns by position; the rest by name. Foreign keys and
  // statistics stay as they were.
  ghost predicate RowsSorted(lower: string -> string, r: Rows, t: Rows) {
    && StablyBy(SchemaBefore(lower), r.schemas, t.schemas)
    && StablyBy(PairedBefore(lower, (a: RelationRow) => a.schema, (a: RelationRow) => a.name), r.relations, t.relations)
    && StablyBy(PlacedBefore((a: ColumnRow) => a.position), r.columns, t.columns)
    && StablyBy(PlacedBefore((a: KeyColumnRow) => a.position), r.primaryKeys, t.primaryKeys)
    && StablyBy(PairedBefore(lower, (a: IndexRow) => a.table, (a: IndexRow) => a.name), r.indexes, t.indexes)
    && StablyBy(PlacedBefore((a: IndexColumnRow) => a.position), r.indexColumns, t.indexColumns)
    && StablyBy(NamedBefore(lower, (a: TriggerRow) => a.name), r.triggers, t.triggers)
    && StablyBy(NamedBefore(lower, (a: TypeRow) => a.name), r.types, t.types)
    && StablyBy(FunctionBefore(lower), r.functions, t.functions)
    && StablyBy(NamedBefore(lower, (a: Setting) => a.name), r.settings, t.settings)
    && t.foreignKeys == r.foreignKeys && t.stats == r.stats
  }

  // key and name are the same function, however they are written.
  lemma ByNameIsStable<T(!new)>(lower: string -> string, key: T -> string, name: T -> string, s: seq<T>)
    requires forall a :: key(a) == name(a)
    ensures StablyBy(NamedBefore(lower, name), s, SortStable(OnName(lower, key), s))
  {
    OnNameOrders(lower, key);
    forall a, b ensures NamedBefore(lower, name)(a, b) <==> OnName(lower, key)(a, b) < 0 {
      NamesExactly(lower, key(a), key(b));
    }
    SortIsStable(OnName(lower, key), NamedBefore(lower, name), s);
  }

  lemma ByPlaceIsStable<T(!new)>(key: T -> int, position: T -> int, s: seq<T>)
    requires forall a :: key(a) == position(a)
    ensures StablyBy(PlacedBefore(position), s, SortStable(OnInt(key), s))
  {
    OnIntOrders(key);
    SortIsStable(OnInt(key), PlacedBefore(position), s);
  }

  lemma ByPairIsStable<T(!new)>(lower: string -> string, key: T -> string, key': T -> string,
                                first: T -> string, second: T -> string, s: seq<T>)
    requires forall a :: key(a) == first(a) && key'(a) == second(a)
    ensures StablyBy(PairedBefore(lower, first, second), s,
                     SortStable(Then(OnName(lower, key), OnName(lower, key')), s))
  {
    var cmp, before := Then(OnName(lower, key), OnName(lower, key')), PairedBefore(lower, first, second);
    OnNameOrders(lower, key);
    OnNameOrders(lower, key');
    ThenOrders(OnName(lower, key), OnName(lower, key'));
    forall a, b ensures before(a, b) <==> cmp(a, b) < 0 {
      NamesExactly(lower, first(a), first(b));
      NamesExactly(lower, second(a), second(b));
    }
    SortIsStable(cmp, before, s);
  }

  lemma ThenSign<T>(first: Compare<T>, second: Compare<T>, a: T, b: T)
    ensures Then(first, second)(a, b) < 0 <==> first(a, b) < 0 || (first(a, b) == 0 && second(a, b) < 0)
  {
  }

  lemma KeySigns<T>(lower: string -> string, name: T -> string, key: T -> int, a: T, b: T)
    ensures OnName(lower, name)(a, b) == CompareNames(lower, name(a), name(b))
    ensures OnInt(key)(a, b) == CompareInts(key(a), key(b))
  {
  }

  lemma SchemasAreStable(lower: string -> string, s: seq<SchemaRow>)
    ensures StablyBy(SchemaBefore(lower), s, SortStable(BySchema(lower), s))
  {
    SchemasOrder(lower);
    forall a, b ensures SchemaBefore(lower)(a, b) <==> BySchema(lower)(a, b) < 0 {
      ThenSign(OnInt(CatalogLast), OnName(lower, SchemaName), a, b);
      NamesExactly(lower, a.name, b.name);
      KeySigns(lower, SchemaName, CatalogLast, a, b);
      assert SchemaName(a) == a.name && SchemaName(b) == b.name;
    }
    SortIsStable(BySchema(lower), SchemaBefore(lower), s);
  }

  lemma FunctionsAreStable(lower: string -> string, s: seq<FunctionRow>)
    ensures StablyBy(FunctionBefore(lower), s, SortStable(ByFunction(lower), s))
  {
    OnNameOrders(lower, FunctionName);
    OnIntOrders(FunctionOid);
    ThenOrders(OnName(lower, FunctionName), OnInt(FunctionOid));
    forall a, b ensures FunctionBefore(lower)(a, b) <==> ByFunction(lower)(a, b) < 0 {
      ThenSign(OnName(lower, FunctionName), OnInt(FunctionOid), a, b);
      NamesExactly(lower, a.name, b.name);
      KeySigns(lower, FunctionName, FunctionOid, a, b);
      assert FunctionName(a) == a.name && FunctionName(b) == b.name;
      assert FunctionOid(a) == a.oid && FunctionOid(b) == b.oid;
    }
    SortIsStable(ByFunction(lower), FunctionBefore(lower), s);
  }

  lemma RowsAreSorted(lower: string -> string, r: Rows)
    ensures RowsSorted(lower, r, SortRows(lower, r))
  {
    SchemasAreStable(lower, r.schemas);
    ByPairIsStable(lower, RelationSchema, RelationName,
                   (a: RelationRow) => a.schema, (a: RelationRow) => a.name, r.relations);
    ByPlaceIsStable(ColumnPosition, (a: ColumnRow) => a.position, r.columns);
    ByPlaceIsStable(KeyPosition, (a: KeyColumnRow) => a.position, r.primaryKeys);
    ByPairIsStable(lower, IndexTable, IndexName, (a: IndexRow) => a.table, (a: IndexRow) => a.name, r.indexes);
    ByPlaceIsStable(IndexColumnPosition, (a: IndexColumnRow) => a.position, r.indexColumns);
    ByNameIsStable(lower, TriggerName, (a: TriggerRow) => a.name, r.triggers);
    ByNameIsStable(lower, TypeName, (a: TypeRow) => a.name, r.types);
    FunctionsAreStable(lower, r.functions);
    ByNameIsStable(lower, SettingName, (a: Setting) => a.name, r.settings);
  }

  // ---- What each schema holds ----

  // x is the last row of s satisfying p.
  ghost predicate LastRow<T>(p: T -> bool, s: seq<T>, x: T) {
    exists i :: 0 <= i < |s| && s[i] == x && p(x) && forall j :: i < j < |s| ==> !p(s[j])
  }

  lemma {:induction false} LastWithExactly<T>(p: T -> bool, s: seq<T>, x: T)
    ensures LastWith(p, s) == Some(x) <==> LastRow(p, s, x)
    ensures LastWith(p, s) == None <==> forall y :: y in s ==> !p(y)
  {
    LastWithMeaning(p, s);
    if s != [] {
      var front, last := s[..|s| - 1], s[|s| - 1];
      assert s == front + [last];
      if !p(last) {
        LastWithExactly(p, front, x);
      }
    }
  }

  function ColumnAt(schema: string, table: string): ColumnRow -> bool {
    (c: ColumnRow) => c.schema == schema && c.table == table
  }

  function KeyAt(schema: string, table: string): KeyColumnRow -> bool {
    (k: KeyColumnRow) => k.schema == schema && k.table == table
  }

  function ForeignKeyAt(c: ColumnRow): ForeignKeyRow -> bool {
    (k: ForeignKeyRow) => k.schema == c.schema && k.table == c.table && k.column == c.name
  }

  function StatAt(schema: string, name: string): StatRow -> bool {
    (s: StatRow) => s.schema == schema && s.name == name
  }

  // The index's own columns, without its expressions.
  function IndexColumnAt(i: IndexRow): IndexColumnRow -> bool {
    (c: IndexColumnRow) => c.schema == i.schema && c.table == i.table && c.index == i.name && c.name != ""
  }

  predicate ReadAs(col: Column, c: ColumnRow) {
    && col.name == c.name && col.typ == c.typ && col.nullable == c.nullable
    && col.default == c.default && col.description == c.description
  }

  // A keyed column is a primary key when a row says so, and refers to what the
  // last row about it does.
  ghost predicate KeyedAs(col: Column, c: ColumnRow, r: Rows) {
    && (col.isPrimaryKey <==> exists k :: k in r.primaryKeys && KeyAt(c.schema, c.table)(k) && k.column == c.name)
    && (forall k :: LastRow(ForeignKeyAt(c), r.foreignKeys, k) ==> col.foreignKey == Some(k.ref))
    && ((forall k :: k in r.foreignKeys ==> !ForeignKeyAt(c)(k)) ==> col.foreignKey == None)
  }

  ghost predicate ColumnsAre(cols: seq<Column>, r: Rows, schema: string, table: string, keyed: bool) {
    var rows := Filter(ColumnAt(schema, table), r.columns);
    |cols| == |rows| && forall i :: 0 <= i < |rows| ==>
      && ReadAs(cols[i], rows[i])
      && if keyed then KeyedAs(cols[i], rows[i], r) else !cols[i].isPrimaryKey && cols[i].foreignKey == None
  }

  ghost predicate KeysAre(names: seq<string>, r: Rows, schema: string, table: string) {
    var rows := Filter(KeyAt(schema, table), r.primaryKeys);
    |names| == |rows| && forall i :: 0 <= i < |rows| ==> names[i] == rows[i].column
  }

  ghost predicate RelationIs(t: Table, rel: RelationRow) {
    t.name == rel.name && t.ddl == rel.ddl && t.description == rel.description
  }

  ghost predicate TableIs(t: Table, rel: RelationRow, r: Rows) {
    && RelationIs(t, rel)
    && ColumnsAre(t.columns, r, rel.schema, rel.name, true) && KeysAre(t.primaryKey, r, rel.schema, rel.name)
  }

  // A view's columns are keyed when a table has its schema and name.
  ghost predicate ViewIs(t: Table, rel: RelationRow, r: Rows) {
    && RelationIs(t, rel) && t.primaryKey == []
    && ColumnsAre(t.columns, r, rel.schema, rel.name,
                  exists x :: x in r.relations && x.kind != "view" && x.schema == rel.schema && x.name == rel.name)
  }

  predicate IndexIs(info: IndexInfo, i: IndexRow, r: Rows) {
    && info.name == i.name && info.table == i.table && info.ddl == i.ddl
    && info.columns == Filter(IndexColumnAt(i), r.indexColumns)
  }

  ghost predicate StatIs(stats: map<string, string>, r: Rows, schema: string, name: string) {
    && (name in stats <==> exists s :: s in r.stats && StatAt(schema, name)(s))
    && (forall s :: LastRow(StatAt(schema, name), r.stats, s) ==> name in stats && stats[name] == s.value)
  }

  ghost predicate StatsAre(stats: map<string, string>, r: Rows, schema: string) {
    forall name :: StatIs(stats, r, schema, name)
  }

  function TableIn(schema: string): RelationRow -> bool {
    (rel: RelationRow) => rel.schema == schema && rel.kind != "view"
  }

  function ViewIn(schema: string): RelationRow -> bool {
    (rel: RelationRow) => rel.schema == schema && rel.kind == "view"
  }

  function IndexIn(schema: string): IndexRow -> bool {
    (i: IndexRow) => i.schema == schema
  }

  ghost predicate TablesAre(tables: seq<Table>, r: Rows, schema: string) {
    var rows := Filter(TableIn(schema), r.relations);
    |tables| == |rows| && forall k :: 0 <= k < |rows| ==> TableIs(tables[k], rows[k], r)
  }

  ghost predicate ViewsAre(views: seq<Table>, r: Rows, schema: string) {
    var rows := Filter(ViewIn(schema), r.relations);
    |views| == |rows| && forall k :: 0 <= k < |rows| ==> ViewIs(views[k], rows[k], r)
  }

  ghost predicate IndexesAre(indexes: seq<IndexInfo>, r: Rows, schema: string) {
    var rows := Filter(IndexIn(schema), r.indexes);
    |indexes| == |rows| && forall k :: 0 <= k < |rows| ==> IndexIs(indexes[k], rows[k], r)
  }

  // A schema holds the rows that name it; all but the last of one name hold none.
  ghost predicate SchemaIs(s: Schema, r: Rows, i: nat)
    requires i < |r.schemas|
  {
    var row := r.schemas[i];
    && s.name == row.name && s.listsForeign == !row.catalog && s.settings == (if row.catalog then r.settings else [])
    && if exists j :: i < j < |r.schemas| && r.schemas[j].name == row.name
       then
         s.tables == [] && s.views == [] && s.indexes == [] && s.triggers == [] && s.stats == map[] && s.types == []
         && s.functions == []
       else
         && TablesAre(s.tables, r, row.name) && ViewsAre(s.views, r, row.name)
         && IndexesAre(s.indexes, r, row.name) && StatsAre(s.stats, r, row.name)
         && s.triggers == Filter((t: TriggerRow) => t.schema == row.name, r.triggers)
         && s.types == Filter((t: TypeRow) => t.schema == row.name, r.types)
         && s.functions == Filter((f: FunctionRow) => f.schema == row.name, r.functions)
  }

  lemma {:induction false} FilterTwice<T>(p: T -> bool, q: T -> bool, both: T -> bool, s: seq<T>)
    requires forall x :: both(x) <==> p(x) && q(x)
    ensures Filter(q, Filter(p, s)) == Filter(both, s)
  {
    if s != [] {
      FilterTwice(p, q, both, s[1..]);
    }
  }

  lemma ReferenceExactly(r: Rows, c: ColumnRow)
    ensures forall k :: LastRow(ForeignKeyAt(c), r.foreignKeys, k) ==>
              Reference(r, c.schema, c.table, c.name) == Some(k.ref)
    ensures (forall k :: k in r.foreignKeys ==> !ForeignKeyAt(c)(k)) ==> Reference(r, c.schema, c.table, c.name) == None
  {
    var p, q := KeyIs(ForeignKeyOf, (c.schema, c.table, c.name)), ForeignKeyAt(c);
    forall k ensures p(k) == q(k) {
      assert ForeignKeyOf(k) == (k.schema, k.table, k.column);
    }
    forall k | LastRow(q, r.foreignKeys, k) ensures LastWith(p, r.foreignKeys) == Some(k) {
      LastWithExactly(p, r.foreignKeys, k);
    }
    LastWithMeaning(p, r.foreignKeys);
  }

  lemma KeyRows(r: Rows, schema: string, table: string)
    ensures KeysAre(KeysAt(r, (schema, table)), r, schema, table)
    ensures forall name :: name in KeysAt(r, (schema, table)) <==>
              exists k :: k in r.primaryKeys && KeyAt(schema, table)(k) && k.column == name
  {
    var rows, f := Filter(KeyAt(schema, table), r.primaryKeys), (c: KeyColumnRow) => c.column;
    forall k ensures KeyIs(KeyTable, (schema, table))(k) == KeyAt(schema, table)(k) {
      assert KeyTable(k) == (k.schema, k.table);
    }
    FilterSame(KeyIs(KeyTable, (schema, table)), KeyAt(schema, table), r.primaryKeys);
    EachAt(f, rows);
    var names := KeysAt(r, (schema, table));
    forall name
      ensures name in names <==> exists k :: k in r.primaryKeys && KeyAt(schema, table)(k) && k.column == name
    {
      forall k ensures k in rows <==> k in r.primaryKeys && KeyAt(schema, table)(k) {
        FilterMember(KeyAt(schema, table), r.primaryKeys, k);
      }
      assert name in names <==> exists i :: 0 <= i < |rows| && rows[i].column == name;
    }
  }

  lemma ColumnsRead(r: Rows, schema: string, table: string, keyed: bool)
    ensures var k := (schema, table);
            ColumnsAre(Each(if keyed then KeyedColumn(r, k, KeysAt(r, k)) else PlainColumn, ColumnsAt(r, k)),
                       r, schema, table, keyed)
  {
    var k := (schema, table);
    var f := if keyed then KeyedColumn(r, k, KeysAt(r, k)) else PlainColumn;
    var rows := Filter(ColumnAt(schema, table), r.columns);
    forall c ensures KeyIs(ColumnTable, k)(c) == ColumnAt(schema, table)(c) {
      assert ColumnTable(c) == (c.schema, c.table);
    }
    FilterSame(KeyIs(ColumnTable, k), ColumnAt(schema, table), r.columns);
    EachAt(f, rows);
    KeyRows(r, schema, table);
    forall i | 0 <= i < |rows| ensures ReadAs(f(rows[i]), rows[i]) && (keyed ==> KeyedAs(f(rows[i]), rows[i], r)) {
      FilterMember(ColumnAt(schema, table), r.columns, rows[i]);
      ReferenceExactly(r, rows[i]);
    }
  }

  lemma TableExactly(r: Rows, rel: RelationRow)
    ensures TableIs(TableOf(r)(rel), rel, r)
  {
    ColumnsRead(r, rel.schema, rel.name, true);
    KeyRows(r, rel.schema, rel.name);
  }

  lemma ViewExactly(r: Rows, rel: RelationRow)
    ensures ViewIs(ViewOf(r)(rel), rel, r)
  {
    ColumnsRead(r, rel.schema, rel.name, TableNamed(r.relations, RelationOf(rel)));
  }

  lemma TablesExactly(r: Rows, schema: string)
    ensures TablesAre(Each(TableOf(r), Filter(IsTable, Filter(KeyIs(RelationSchema, schema), r.relations))), r, schema)
  {
    forall rel ensures TableIn(schema)(rel) <==> KeyIs(RelationSchema, schema)(rel) && IsTable(rel) {
      assert RelationSchema(rel) == rel.schema;
    }
    FilterTwice(KeyIs(RelationSchema, schema), IsTable, TableIn(schema), r.relations);
    var rows := Filter(TableIn(schema), r.relations);
    EachAt(TableOf(r), rows);
    forall k | 0 <= k < |rows| ensures TableIs(TableOf(r)(rows[k]), rows[k], r) {
      TableExactly(r, rows[k]);
    }
  }

  lemma ViewsExactly(r: Rows, schema: string)
    ensures ViewsAre(Each(ViewOf(r), Filter(IsView, Filter(KeyIs(RelationSchema, schema), r.relations))), r, schema)
  {
    forall rel ensures ViewIn(schema)(rel) <==> KeyIs(RelationSchema, schema)(rel) && IsView(rel) {
      assert RelationSchema(rel) == rel.schema;
    }
    FilterTwice(KeyIs(RelationSchema, schema), IsView, ViewIn(schema), r.relations);
    var rows := Filter(ViewIn(schema), r.relations);
    EachAt(ViewOf(r), rows);
    forall k | 0 <= k < |rows| ensures ViewIs(ViewOf(r)(rows[k]), rows[k], r) {
      ViewExactly(r, rows[k]);
    }
  }

  lemma IndexesExactly(r: Rows, schema: string)
    ensures IndexesAre(Each(IndexInfoOf(r), Filter(KeyIs(IndexSchema, schema), r.indexes)), r, schema)
  {
    assert forall i :: IndexSchema(i) == i.schema;
    FilterSame(KeyIs(IndexSchema, schema), IndexIn(schema), r.indexes);
    var rows := Filter(IndexIn(schema), r.indexes);
    EachAt(IndexInfoOf(r), rows);
    forall k | 0 <= k < |rows| ensures IndexIs(IndexInfoOf(r)(rows[k]), rows[k], r) {
      var i := rows[k];
      forall c ensures KeyIs(IndexOf, (i.schema, i.table, i.name))(c) <==>
                         c.schema == i.schema && c.table == i.table && c.index == i.name {
        assert IndexOf(c) == (c.schema, c.table, c.index);
      }
      FilterTwice(KeyIs(IndexOf, (i.schema, i.table, i.name)), HasName, IndexColumnAt(i), r.indexColumns);
    }
  }

  lemma StatExactly(r: Rows, schema: string, name: string)
    ensures StatIs(StatsOf(r, schema), r, schema, name)
  {
    var p, q := KeyIs(StatOf, (schema, name)), StatAt(schema, name);
    assert forall s :: q(s) <==> s.schema == schema && s.name == name;
    assert name in StatNames(r, schema) <==> exists s :: s in r.stats && q(s);
    forall s ensures p(s) == q(s) {
      assert StatOf(s) == (s.schema, s.name);
    }
    forall s | LastRow(q, r.stats, s) ensures s in r.stats && q(s) && LastWith(p, r.stats) == Some(s) {
      LastWithExactly(p, r.stats, s);
    }
  }

  lemma StatsExactly(r: Rows, schema: string)
    ensures StatsAre(StatsOf(r, schema), r, schema)
  {
    forall name ensures StatIs(StatsOf(r, schema), r, schema, name) {
      StatExactly(r, schema, name);
    }
  }

  lemma ObjectsExactly(r: Rows, name: string)
    ensures Filter(KeyIs(TriggerSchema, name), r.triggers) == Filter((t: TriggerRow) => t.schema == name, r.triggers)
    ensures Filter(KeyIs(TypeSchema, name), r.types) == Filter((t: TypeRow) => t.schema == name, r.types)
    ensures Filter(KeyIs(FunctionSchema, name), r.functions) ==
            Filter((f: FunctionRow) => f.schema == name, r.functions)
  {
    assert forall t :: TriggerSchema(t) == t.schema;
    assert forall t :: TypeSchema(t) == t.schema;
    assert forall f :: FunctionSchema(f) == f.schema;
    FilterSame(KeyIs(TriggerSchema, name), (t: TriggerRow) => t.schema == name, r.triggers);
    FilterSame(KeyIs(TypeSchema, name), (t: TypeRow) => t.schema == name, r.types);
    FilterSame(KeyIs(FunctionSchema, name), (f: FunctionRow) => f.schema == name, r.functions);
  }

  lemma FilledExactly(r: Rows, i: nat)
    requires i < |r.schemas| && NamedLast(r.schemas, i)
    ensures SchemaIs(Filled(r, r.schemas[i]), r, i)
  {
    var name := r.schemas[i].name;
    TablesExactly(r, name);
    ViewsExactly(r, name);
    IndexesExactly(r, name);
    StatsExactly(r, name);
    ObjectsExactly(r, name);
  }

  // Each schema of the result holds what the sorted rows say, and no more.
  lemma SchemaExactly(lower: string -> string, r: Rows, i: nat)
    requires i < |SortRows(lower, r).schemas|
    ensures |MetadataOf(lower, r)| == |SortRows(lower, r).schemas|
    ensures SchemaIs(MetadataOf(lower, r)[i], SortRows(lower, r), i)
  {
    var t := SortRows(lower, r);
    assert MetadataOf(lower, r)[i] == SchemaAt(t, i);
    if NamedLast(t.schemas, i) {
      FilledExactly(t, i);
    }
  }
}
