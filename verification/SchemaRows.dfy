// Grouping the flat rows of a database schema into schemas, and why the order
// the database returned them in does not matter.
module SchemaRows {
  import opened Collections
  import opened Ordering

  // ---- compareNames ----

  // strings.Compare: byte by byte.
  function CompareStrings(a: string, b: string): int {
    if a == [] then (if b == [] then 0 else -1)
    else if b == [] then 1
    else if a[0] != b[0] then (if a[0] < b[0] then -1 else 1)
    else CompareStrings(a[1..], b[1..])
  }

  // lower is strings.ToLower.
  function CompareNames(lower: string -> string, a: string, b: string): int {
    Or(CompareStrings(lower(a), lower(b)), CompareStrings(a, b))
  }

  lemma {:induction false} StringsFlip(a: string, b: string)
    ensures CompareStrings(a, b) == -CompareStrings(b, a)
    ensures CompareStrings(a, b) == 0 <==> a == b
  {
    if a != [] && b != [] {
      StringsFlip(a[1..], b[1..]);
      assert a == [a[0]] + a[1..] && b == [b[0]] + b[1..];
    }
  }

  lemma {:induction false} StringsChain(a: string, b: string, c: string)
    requires CompareStrings(a, b) <= 0 && CompareStrings(b, c) <= 0
    ensures CompareStrings(a, c) <= 0
    ensures CompareStrings(a, c) == 0 ==> CompareStrings(a, b) == 0 && CompareStrings(b, c) == 0
  {
    if a != [] && b != [] && c != [] && a[0] == b[0] == c[0] {
      StringsChain(a[1..], b[1..], c[1..]);
    }
  }

  // compareNames is a total order that equates only identical names, whatever
  // lower-casing does to them.
  lemma NamesAreOrdered(lower: string -> string, a: string, b: string, c: string)
    ensures CompareNames(lower, a, b) == -CompareNames(lower, b, a)
    ensures CompareNames(lower, a, b) == 0 <==> a == b
    ensures CompareNames(lower, a, b) <= 0 && CompareNames(lower, b, c) <= 0 ==> CompareNames(lower, a, c) <= 0
  {
    StringsFlip(lower(a), lower(b));
    StringsFlip(a, b);
    if CompareNames(lower, a, b) <= 0 && CompareNames(lower, b, c) <= 0 {
      StringsChain(lower(a), lower(b), lower(c));
      if CompareStrings(lower(a), lower(c)) == 0 {
        StringsChain(a, b, c);
      }
    }
  }

  // ---- Rows ----

  datatype SchemaRow = SchemaRow(name: string, catalog: bool)
  datatype RelationRow = RelationRow(schema: string, name: string, kind: string, ddl: string, description: string)
  datatype ColumnRow = ColumnRow(
    schema: string, table: string, name: string, typ: string, nullable: bool,
    default: Option<string>, position: int, description: string)
  datatype KeyColumnRow = KeyColumnRow(schema: string, table: string, column: string, position: int)
  datatype ForeignKeyRef = ForeignKeyRef(schema: string, table: string, column: string)
  datatype ForeignKeyRow = ForeignKeyRow(schema: string, table: string, column: string, ref: ForeignKeyRef)
  datatype IndexRow = IndexRow(schema: string, table: string, name: string, ddl: string)
  datatype IndexColumnRow = IndexColumnRow(
    schema: string, table: string, index: string, name: string, position: int, collation: string, descending: bool)
  datatype TriggerRow = TriggerRow(schema: string, table: string, name: string, ddl: string)
  datatype StatRow = StatRow(schema: string, name: string, value: string)
  datatype TypeRow = TypeRow(schema: string, name: string, kind: string, display: string)
  datatype FunctionRow = FunctionRow(schema: string, name: string, oid: int, args: string, result: string)
  datatype Setting = Setting(name: string, description: string, value: string)

  datatype Rows = Rows(
    schemas: seq<SchemaRow>, relations: seq<RelationRow>, columns: seq<ColumnRow>,
    primaryKeys: seq<KeyColumnRow>, foreignKeys: seq<ForeignKeyRow>, indexes: seq<IndexRow>,
    indexColumns: seq<IndexColumnRow>, triggers: seq<TriggerRow>, stats: seq<StatRow>,
    types: seq<TypeRow>, functions: seq<FunctionRow>, settings: seq<Setting>)

  // ---- The comparisons the rows are sorted by ----

  function OnName<T>(lower: string -> string, key: T -> string): Compare<T> {
    (a: T, b: T) => CompareNames(lower, key(a), key(b))
  }

  lemma OnNameOrders<T(!new)>(lower: string -> string, key: T -> string)
    ensures Orders(OnName(lower, key))
  {
    var cmp := OnName(lower, key);
    forall a, b, c
      ensures cmp(a, b) < 0 <==> cmp(b, a) > 0
      ensures cmp(a, b) == 0 <==> cmp(b, a) == 0
      ensures cmp(a, b) <= 0 && cmp(b, c) <= 0 ==> cmp(a, c) <= 0
    {
      NamesAreOrdered(lower, key(a), key(b), key(c));
    }
  }

  function CatalogLast(s: SchemaRow): int {
    if s.catalog then 1 else 0
  }

  function SchemaName(s: SchemaRow): string { s.name }
  function RelationName(r: RelationRow): string { r.name }
  function ColumnPosition(c: ColumnRow): int { c.position }
  function KeyPosition(k: KeyColumnRow): int { k.position }
  function IndexTable(i: IndexRow): string { i.table }
  function IndexName(i: IndexRow): string { i.name }
  function IndexColumnPosition(c: IndexColumnRow): int { c.position }
  function TriggerName(t: TriggerRow): string { t.name }
  function TypeName(t: TypeRow): string { t.name }
  function FunctionName(f: FunctionRow): string { f.name }
  function FunctionOid(f: FunctionRow): int { f.oid }
  function SettingName(s: Setting): string { s.name }

  function BySchema(lower: string -> string): Compare<SchemaRow> {
    Then(OnInt(CatalogLast), OnName(lower, SchemaName))
  }

  function ByRelation(lower: string -> string): Compare<RelationRow> {
    Then(OnName(lower, RelationSchema), OnName(lower, RelationName))
  }

  function ByColumn(): Compare<ColumnRow> {
    OnInt(ColumnPosition)
  }

  function ByKey(): Compare<KeyColumnRow> {
    OnInt(KeyPosition)
  }

  function ByIndex(lower: string -> string): Compare<IndexRow> {
    Then(OnName(lower, IndexTable), OnName(lower, IndexName))
  }

  function ByIndexColumn(): Compare<IndexColumnRow> {
    OnInt(IndexColumnPosition)
  }

  function ByTrigger(lower: string -> string): Compare<TriggerRow> {
    OnName(lower, TriggerName)
  }

  function ByType(lower: string -> string): Compare<TypeRow> {
    OnName(lower, TypeName)
  }

  function ByFunction(lower: string -> string): Compare<FunctionRow> {
    Then(OnName(lower, FunctionName), OnInt(FunctionOid))
  }

  function BySetting(lower: string -> string): Compare<Setting> {
    OnName(lower, SettingName)
  }

  function SortRows(lower: string -> string, r: Rows): Rows {
    r.(schemas := SortStable(BySchema(lower), r.schemas),
       relations := SortStable(ByRelation(lower), r.relations),
       columns := SortStable(ByColumn(), r.columns),
       primaryKeys := SortStable(ByKey(), r.primaryKeys),
       indexes := SortStable(ByIndex(lower), r.indexes),
       indexColumns := SortStable(ByIndexColumn(), r.indexColumns),
       triggers := SortStable(ByTrigger(lower), r.triggers),
       types := SortStable(ByType(lower), r.types),
       functions := SortStable(ByFunction(lower), r.functions),
       settings := SortStable(BySetting(lower), r.settings))
  }

  // ---- Assembling ----

  datatype Column = Column(
    name: string, typ: string, nullable: bool, default: Option<string>, description: string,
    isPrimaryKey: bool, foreignKey: Option<ForeignKeyRef>)
  datatype Table = Table(name: string, columns: seq<Column>, primaryKey: seq<string>, ddl: string, description: string)
  datatype IndexInfo = IndexInfo(name: string, table: string, ddl: string, columns: seq<IndexColumnRow>)

  // listsForeign is whether foreign tables and materialized views are listed, if empty.
  datatype Schema = Schema(
    name: string, tables: seq<Table>, views: seq<Table>, indexes: seq<IndexInfo>, triggers: seq<TriggerRow>,
    stats: map<string, string>, types: seq<TypeRow>, functions: seq<FunctionRow>, settings: seq<Setting>,
    listsForeign: bool)

  function RelationSchema(r: RelationRow): string { r.schema }
  function ColumnTable(c: ColumnRow): (string, string) { (c.schema, c.table) }
  function KeyTable(k: KeyColumnRow): (string, string) { (k.schema, k.table) }
  function ForeignKeyOf(k: ForeignKeyRow): (string, string, string) { (k.schema, k.table, k.column) }
  function IndexSchema(i: IndexRow): string { i.schema }
  function IndexOf(c: IndexColumnRow): (string, string, string) { (c.schema, c.table, c.index) }
  function TriggerSchema(t: TriggerRow): string { t.schema }
  function StatSchema(s: StatRow): string { s.schema }
  function StatOf(s: StatRow): (string, string) { (s.schema, s.name) }
  function TypeSchema(t: TypeRow): string { t.schema }
  function FunctionSchema(f: FunctionRow): string { f.schema }

  function PlainColumn(c: ColumnRow): Column {
    Column(c.name, c.typ, c.nullable, c.default, c.description, false, None)
  }

  function Reference(r: Rows, schema: string, table: string, column: string): Option<ForeignKeyRef> {
    match LastWith(KeyIs(ForeignKeyOf, (schema, table, column)), r.foreignKeys)
    case None => None
    case Some(row) => Some(row.ref)
  }

  function KeyedColumn(r: Rows, k: (string, string), keys: seq<string>): ColumnRow -> Column {
    (c: ColumnRow) => PlainColumn(c).(isPrimaryKey := c.name in keys, foreignKey := Reference(r, k.0, k.1, c.name))
  }

  function RelationOf(rel: RelationRow): (string, string) { (rel.schema, rel.name) }

  function ColumnsAt(r: Rows, k: (string, string)): seq<ColumnRow> {
    Filter(KeyIs(ColumnTable, k), r.columns)
  }

  function KeysAt(r: Rows, k: (string, string)): seq<string> {
    Each((c: KeyColumnRow) => c.column, Filter(KeyIs(KeyTable, k), r.primaryKeys))
  }

  function TableOf(r: Rows): RelationRow -> Table {
    (rel: RelationRow) =>
      var k := RelationOf(rel);
      Table(rel.name, Each(KeyedColumn(r, k, KeysAt(r, k)), ColumnsAt(r, k)), KeysAt(r, k), rel.ddl, rel.description)
  }

  predicate TableNamed(relations: seq<RelationRow>, k: (string, string)) {
    exists rel :: rel in relations && IsTable(rel) && RelationOf(rel) == k
  }

  // The columns relations of one name share: once one of them is a table they
  // carry its keys.
  function SharedColumns(r: Rows, relations: seq<RelationRow>, k: (string, string)): seq<Column> {
    Each(if TableNamed(relations, k) then KeyedColumn(r, k, KeysAt(r, k)) else PlainColumn, ColumnsAt(r, k))
  }

  function ViewOf(r: Rows): RelationRow -> Table {
    (rel: RelationRow) => Table(rel.name, SharedColumns(r, r.relations, RelationOf(rel)), [], rel.ddl, rel.description)
  }

  function IsView(rel: RelationRow): bool {
    rel.kind == "view"
  }

  function IsTable(rel: RelationRow): bool {
    rel.kind != "view"
  }

  // An expression has no name and is left out of its index.
  function HasName(c: IndexColumnRow): bool {
    c.name != ""
  }

  function IndexInfoOf(r: Rows): IndexRow -> IndexInfo {
    (i: IndexRow) => IndexInfo(i.name, i.table, i.ddl,
        Filter(HasName, Filter(KeyIs(IndexOf, (i.schema, i.table, i.name)), r.indexColumns)))
  }

  function StatNames(r: Rows, schema: string): set<string> {
    set s | s in r.stats && s.schema == schema :: s.name
  }

  function StatsOf(r: Rows, schema: string): map<string, string> {
    map name | name in StatNames(r, schema) ::
      match LastWith(KeyIs(StatOf, (schema, name)), r.stats) case Some(s) => s.value case None => ""
  }

  // Rows of a schema go to the last one listed under its name.
  predicate NamedLast(schemas: seq<SchemaRow>, i: nat)
    requires i < |schemas|
  {
    forall j :: i < j < |schemas| ==> schemas[j].name != schemas[i].name
  }

  function Bare(r: Rows, s: SchemaRow): Schema {
    Schema(s.name, [], [], [], [], map[], [], [], if s.catalog then r.settings else [], !s.catalog)
  }

  function Filled(r: Rows, s: SchemaRow): Schema {
    var relations := Filter(KeyIs(RelationSchema, s.name), r.relations);
    Bare(r, s).(
      tables := Each(TableOf(r), Filter(IsTable, relations)),
      views := Each(ViewOf(r), Filter(IsView, relations)),
      indexes := Each(IndexInfoOf(r), Filter(KeyIs(IndexSchema, s.name), r.indexes)),
      triggers := Filter(KeyIs(TriggerSchema, s.name), r.triggers),
      stats := StatsOf(r, s.name),
      types := Filter(KeyIs(TypeSchema, s.name), r.types),
      functions := Filter(KeyIs(FunctionSchema, s.name), r.functions))
  }

  function SchemaAt(r: Rows, i: nat): Schema
    requires i < |r.schemas|
  {
    if NamedLast(r.schemas, i) then Filled(r, r.schemas[i]) else Bare(r, r.schemas[i])
  }

  function Assembled(r: Rows): seq<Schema> {
    seq(|r.schemas|, i requires 0 <= i < |r.schemas| => SchemaAt(r, i))
  }

  function MetadataOf(lower: string -> string, r: Rows): seq<Schema> {
    Assembled(SortRows(lower, r))
  }

  // ---- The assembler ----

  // Sets the keys of each column in place.
  method EnrichColumns(columns: array<Column>, keys: seq<string>, refs: map<string, ForeignKeyRef>)
    modifies columns
    ensures forall i :: 0 <= i < columns.Length ==>
              columns[i] == old(columns[i]).(
                isPrimaryKey := old(columns[i]).name in keys,
                foreignKey := if old(columns[i]).name in refs then Some(refs[old(columns[i]).name])
                              else old(columns[i]).foreignKey)
  {
    for i := 0 to columns.Length
      invariant forall j :: i <= j < columns.Length ==> columns[j] == old(columns[j])
      invariant forall j :: 0 <= j < i ==>
                  columns[j] == old(columns[j]).(
                    isPrimaryKey := old(columns[j]).name in keys,
                    foreignKey := if old(columns[j]).name in refs then Some(refs[old(columns[j]).name])
                                  else old(columns[j]).foreignKey)
    {
      columns[i] := columns[i].(isPrimaryKey := columns[i].name in keys);
      if columns[i].name in refs {
        columns[i] := columns[i].(foreignKey := Some(refs[columns[i].name]));
      }
    }
  }

  // The references of a table by column, the last row of a column deciding.
  ghost predicate RefsAre(refs: map<string, ForeignKeyRef>, r: Rows, schema: string, table: string) {
    forall column :: Reference(r, schema, table, column) == if column in refs then Some(refs[column]) else None
  }

  type ForeignKeys = map<(string, string), map<string, ForeignKeyRef>>

  function RefsAt(m: ForeignKeys, k: (string, string)): map<string, ForeignKeyRef> {
    if k in m then m[k] else map[]
  }

  method GroupForeignKeys(r: Rows) returns (m: ForeignKeys)
    ensures forall k: (string, string) :: RefsAre(RefsAt(m, k), r, k.0, k.1)
  {
    m := map[];
    for i := 0 to |r.foreignKeys|
      invariant forall k: (string, string) :: RefsAre(RefsAt(m, k), r.(foreignKeys := r.foreignKeys[..i]), k.0, k.1)
    {
      var row := r.foreignKeys[i];
      var k := (row.schema, row.table);
      ghost var was := m;
      m := m[k := RefsAt(m, k)[row.column := row.ref]];
      forall j: (string, string) ensures RefsAre(RefsAt(m, j), r.(foreignKeys := r.foreignKeys[..i + 1]), j.0, j.1) {
        assert RefsAre(RefsAt(was, j), r.(foreignKeys := r.foreignKeys[..i]), j.0, j.1);
        RefsMore(RefsAt(was, j), r, i, j, RefsAt(m, j));
      }
    }
    assert r.(foreignKeys := r.foreignKeys[..|r.foreignKeys|]) == r;
  }

  lemma KeyOfColumn(row: ForeignKeyRow, k: (string, string), column: string)
    ensures KeyIs(ForeignKeyOf, (k.0, k.1, column))(row) <==> (row.schema, row.table) == k && row.column == column
  {
    assert ForeignKeyOf(row) == (row.schema, row.table, row.column);
  }

  lemma RefsMore(refs: map<string, ForeignKeyRef>, r: Rows, i: nat, k: (string, string),
                 refs': map<string, ForeignKeyRef>)
    requires i < |r.foreignKeys| && RefsAre(refs, r.(foreignKeys := r.foreignKeys[..i]), k.0, k.1)
    requires var row := r.foreignKeys[i];
             refs' == if (row.schema, row.table) == k then refs[row.column := row.ref] else refs
    ensures RefsAre(refs', r.(foreignKeys := r.foreignKeys[..i + 1]), k.0, k.1)
  {
    var row := r.foreignKeys[i];
    assert r.foreignKeys[..i + 1][..i] == r.foreignKeys[..i];
    forall column
      ensures Reference(r.(foreignKeys := r.foreignKeys[..i + 1]), k.0, k.1, column) ==
              if column in refs' then Some(refs'[column]) else None
    {
      var wanted := (k.0, k.1, column);
      LastMore(KeyIs(ForeignKeyOf, wanted), r.foreignKeys, i);
      KeyOfColumn(row, k, column);
      assert Reference(r.(foreignKeys := r.foreignKeys[..i]), k.0, k.1, column) ==
          if column in refs then Some(refs[column]) else None;
    }
  }

  lemma LastMore<T>(p: T -> bool, s: seq<T>, i: nat)
    requires i < |s|
    ensures LastWith(p, s[..i + 1]) == if p(s[i]) then Some(s[i]) else LastWith(p, s[..i])
  {
    assert s[..i + 1][..i] == s[..i];
  }

  // The rows of each schema under the last one listed under its name.
  ghost predicate SpreadAs<R>(lists: seq<seq<R>>, rows: seq<R>, schemaOf: R -> string, schemas: seq<SchemaRow>) {
    |lists| == |schemas| && forall i :: 0 <= i < |schemas| ==> SpreadAt(lists, rows, schemaOf, schemas, i)
  }

  ghost predicate SpreadAt<R>(lists: seq<seq<R>>, rows: seq<R>, schemaOf: R -> string, schemas: seq<SchemaRow>, i: nat)
    requires i < |lists| == |schemas|
  {
    lists[i] == if NamedLast(schemas, i) then Filter(KeyIs(schemaOf, schemas[i].name), rows) else []
  }

  lemma OneMore<R>(p: R -> bool, rows: seq<R>, n: nat)
    requires n < |rows|
    ensures Filter(p, rows[..n + 1]) == if p(rows[n]) then Filter(p, rows[..n]) + [rows[n]] else Filter(p, rows[..n])
  {
    assert rows[..n + 1] == rows[..n] + [rows[n]];
    FilterConcat(p, rows[..n], [rows[n]]);
    assert [rows[n]][1..] == [];
  }

  ghost predicate Indexed(schemas: seq<SchemaRow>, bySchema: map<string, nat>) {
    && (forall name :: name in bySchema ==> bySchema[name] < |schemas| && schemas[bySchema[name]].name == name)
    && (forall i :: 0 <= i < |schemas| ==>
          schemas[i].name in bySchema && (NamedLast(schemas, i) <==> bySchema[schemas[i].name] == i))
  }

  // Lists each row under the schema that owns its name, dropping the rows of
  // schemas that are not listed.
  method Spread<R>(rows: seq<R>, schemaOf: R -> string, schemas: seq<SchemaRow>, bySchema: map<string, nat>)
    returns (lists: seq<seq<R>>)
    requires Indexed(schemas, bySchema)
    ensures SpreadAs(lists, rows, schemaOf, schemas)
  {
    lists := seq(|schemas|, _ => []);
    for n := 0 to |rows|
      invariant SpreadAs(lists, rows[..n], schemaOf, schemas)
    {
      ghost var was := lists;
      var name := schemaOf(rows[n]);
      if name in bySchema {
        var at := bySchema[name];
        lists := lists[at := lists[at] + [rows[n]]];
      }
      ghost var now := rows[..n + 1];
      forall i | 0 <= i < |schemas| ensures SpreadAt(lists, now, schemaOf, schemas, i) {
        assert SpreadAt(was, rows[..n], schemaOf, schemas, i);
        OneMore(KeyIs(schemaOf, schemas[i].name), rows, n);
      }
    }
    assert rows[..|rows|] == rows;
  }

  // The position that answers for each name.
  method IndexSchemas(schemas: seq<SchemaRow>) returns (bySchema: map<string, nat>)
    ensures Indexed(schemas, bySchema)
  {
    bySchema := map[];
    for n := 0 to |schemas|
      invariant forall name :: name in bySchema ==> bySchema[name] < n && schemas[bySchema[name]].name == name
      invariant forall i :: 0 <= i < n ==> schemas[i].name in bySchema && bySchema[schemas[i].name] >= i
    {
      bySchema := bySchema[schemas[n].name := n];
    }
    forall i | 0 <= i < |schemas| ensures NamedLast(schemas, i) <==> bySchema[schemas[i].name] == i {
      var at := bySchema[schemas[i].name];
      assert schemas[at].name == schemas[i].name;
    }
  }

  method BuildStats(rows: seq<StatRow>, r: Rows, schema: string) returns (stats: map<string, string>)
    requires rows == Filter(KeyIs(StatSchema, schema), r.stats)
    ensures stats == StatsOf(r, schema)
  {
    stats := map[];
    for n := 0 to |rows|
      invariant stats == StatsOf(r.(stats := rows[..n]), schema)
    {
      var row := rows[n];
      FilterMember(KeyIs(StatSchema, schema), r.stats, row);
      StatsMore(r, rows, n, schema);
      stats := stats[row.name := row.value];
    }
    assert rows[..|rows|] == rows;
    StatsFiltered(r, schema);
  }

  lemma StatsMore(r: Rows, rows: seq<StatRow>, n: nat, schema: string)
    requires n < |rows| && rows[n].schema == schema
    ensures StatsOf(r.(stats := rows[..n + 1]), schema) ==
            StatsOf(r.(stats := rows[..n]), schema)[rows[n].name := rows[n].value]
  {
    var row, a, b := rows[n], r.(stats := rows[..n]), r.(stats := rows[..n + 1]);
    var was, now := StatsOf(a, schema), StatsOf(b, schema);
    StatNamesMore(r, rows, n, schema);
    assert now.Keys == was.Keys + {row.name};
    forall name | name in now ensures now[name] == was[row.name := row.value][name] {
      LastMore(KeyIs(StatOf, (schema, name)), rows, n);
    }
  }

  lemma StatNamesMore(r: Rows, rows: seq<StatRow>, n: nat, schema: string)
    requires n < |rows| && rows[n].schema == schema
    ensures StatNames(r.(stats := rows[..n + 1]), schema) == StatNames(r.(stats := rows[..n]), schema) + {rows[n].name}
  {
    assert rows[..n + 1] == rows[..n] + [rows[n]];
    assert forall s :: s in rows[..n + 1] <==> s in rows[..n] || s == rows[n];
  }

  lemma {:induction false} LastFiltered(rows: seq<StatRow>, schema: string, name: string)
    ensures LastWith(KeyIs(StatOf, (schema, name)), Filter(KeyIs(StatSchema, schema), rows)) ==
            LastWith(KeyIs(StatOf, (schema, name)), rows)
  {
    if rows != [] {
      var p, key := KeyIs(StatSchema, schema), KeyIs(StatOf, (schema, name));
      var front, last := rows[..|rows| - 1], rows[|rows| - 1];
      LastFiltered(front, schema, name);
      assert rows == front + [last];
      FilterConcat(p, front, [last]);
      var kept := Filter(p, front);
      if p(last) {
        assert (kept + [last])[..|kept|] == kept;
      } else {
        assert kept + [] == kept;
      }
    }
  }

  lemma StatsFiltered(r: Rows, schema: string)
    ensures StatsOf(r.(stats := Filter(KeyIs(StatSchema, schema), r.stats)), schema) == StatsOf(r, schema)
  {
    var p := KeyIs(StatSchema, schema);
    var f := r.(stats := Filter(p, r.stats));
    forall s ensures s in f.stats <==> s in r.stats && s.schema == schema {
      FilterMember(p, r.stats, s);
    }
    assert StatNames(f, schema) == StatNames(r, schema);
    forall name | name in StatNames(r, schema) ensures StatsOf(f, schema)[name] == StatsOf(r, schema)[name] {
      LastFiltered(r.stats, schema, name);
    }
  }

  // The groups the relations are assembled from; the columns are shared by the
  // relations of one name.
  datatype Groups = Groups(
    columns: map<(string, string), seq<Column>>,
    keys: map<(string, string), seq<KeyColumnRow>>,
    refs: ForeignKeys,
    indexColumns: map<(string, string, string), seq<IndexColumnRow>>)

  ghost predicate GroupsAre(g: Groups, r: Rows) {
    && ColumnsShared(g.columns, r, r.relations)
    && (forall k :: Grouped(g.keys, k) == Filter(KeyIs(KeyTable, k), r.primaryKeys))
    && (forall k: (string, string) :: RefsAre(RefsAt(g.refs, k), r, k.0, k.1))
    && (forall k :: Grouped(g.indexColumns, k) == Filter(KeyIs(IndexOf, k), r.indexColumns))
  }

  ghost predicate ColumnsShared(columns: map<(string, string), seq<Column>>, r: Rows, relations: seq<RelationRow>) {
    forall k :: Grouped(columns, k) == SharedColumns(r, relations, k)
  }

  // Marks the columns of every table with its keys, where the table stands in
  // the order of the relations.
  method MarkTables(r: Rows, rows: map<(string, string), seq<ColumnRow>>,
                    keys: map<(string, string), seq<KeyColumnRow>>, refs: ForeignKeys)
    returns (columns: map<(string, string), seq<Column>>)
    requires forall k :: Grouped(rows, k) == ColumnsAt(r, k)
    requires forall k :: Grouped(keys, k) == Filter(KeyIs(KeyTable, k), r.primaryKeys)
    requires forall k: (string, string) :: RefsAre(RefsAt(refs, k), r, k.0, k.1)
    ensures ColumnsShared(columns, r, r.relations)
  {
    columns := map k | k in rows :: Each(PlainColumn, rows[k]);
    forall k ensures Grouped(columns, k) == SharedColumns(r, [], k) {
      assert Grouped(rows, k) == ColumnsAt(r, k);
    }
    for n := 0 to |r.relations|
      invariant ColumnsShared(columns, r, r.relations[..n])
    {
      var rel := r.relations[n];
      ghost var was := columns;
      if IsTable(rel) {
        var k := RelationOf(rel);
        var names := Each((c: KeyColumnRow) => c.column, Grouped(keys, k));
        assert RefsAre(RefsAt(refs, k), r, k.0, k.1) && Grouped(keys, k) == Filter(KeyIs(KeyTable, k), r.primaryKeys);
        var marked := MarkColumns(r, k, r.relations[..n], Grouped(columns, k), names, RefsAt(refs, k));
        columns := columns[k := marked];
      }
      MarkedMore(r, n, was, columns);
    }
    assert r.relations[..|r.relations|] == r.relations;
  }

  lemma MarkedMore(r: Rows, n: nat, was: map<(string, string), seq<Column>>,
                   columns: map<(string, string), seq<Column>>)
    requires n < |r.relations| && ColumnsShared(was, r, r.relations[..n])
    requires var rel := r.relations[n];
             var k := RelationOf(rel);
             columns == if IsTable(rel) then was[k := Each(KeyedColumn(r, k, KeysAt(r, k)), ColumnsAt(r, k))] else was
    ensures ColumnsShared(columns, r, r.relations[..n + 1])
  {
    var before, after, rel := r.relations[..n], r.relations[..n + 1], r.relations[n];
    assert after == before + [rel];
    assert forall x :: x in after <==> x in before || x == rel;
    forall k ensures Grouped(columns, k) == SharedColumns(r, after, k) {
      assert Grouped(was, k) == SharedColumns(r, before, k);
      assert rel in after;
      assert TableNamed(after, k) <==> TableNamed(before, k) || (IsTable(rel) && RelationOf(rel) == k);
    }
  }

  // Marking is in place, and marking again changes nothing.
  method MarkColumns(r: Rows, k: (string, string), ghost before: seq<RelationRow>, columns: seq<Column>,
                     keys: seq<string>, refs: map<string, ForeignKeyRef>)
    returns (marked: seq<Column>)
    requires columns == SharedColumns(r, before, k) && keys == KeysAt(r, k) && RefsAre(refs, r, k.0, k.1)
    ensures marked == Each(KeyedColumn(r, k, keys), ColumnsAt(r, k))
  {
    var cells := new Column[|columns|](i requires 0 <= i < |columns| => columns[i]);
    EnrichColumns(cells, keys, refs);
    EachAt(KeyedColumn(r, k, keys), ColumnsAt(r, k));
    EachAt(PlainColumn, ColumnsAt(r, k));
    marked := cells[..];
  }

  method BuildTable(r: Rows, rel: RelationRow, g: Groups) returns (t: Table)
    requires GroupsAre(g, r) && rel in r.relations && IsTable(rel)
    ensures t == TableOf(r)(rel)
  {
    var k := RelationOf(rel);
    assert TableNamed(r.relations, k);
    assert Grouped(g.columns, k) == SharedColumns(r, r.relations, k);
    var keys := Each((c: KeyColumnRow) => c.column, Grouped(g.keys, k));
    t := Table(rel.name, Grouped(g.columns, k), keys, rel.ddl, rel.description);
  }

  method BuildView(r: Rows, rel: RelationRow, g: Groups) returns (t: Table)
    requires GroupsAre(g, r)
    ensures t == ViewOf(r)(rel)
  {
    var k := RelationOf(rel);
    assert Grouped(g.columns, k) == SharedColumns(r, r.relations, k);
    t := Table(rel.name, Grouped(g.columns, k), [], rel.ddl, rel.description);
  }

  lemma {:induction false} EachAt<A, B>(f: A -> B, s: seq<A>)
    ensures |Each(f, s)| == |s| && forall i :: 0 <= i < |s| ==> Each(f, s)[i] == f(s[i])
  {
    if s != [] { EachAt(f, s[1..]); }
  }

  // Splits the relations of one schema into its tables and its views.
  method BuildRelations(r: Rows, relations: seq<RelationRow>, g: Groups) returns (tables: seq<Table>, views: seq<Table>)
    requires GroupsAre(g, r) && forall rel :: rel in relations ==> rel in r.relations
    ensures tables == Each(TableOf(r), Filter(IsTable, relations))
    ensures views == Each(ViewOf(r), Filter(IsView, relations))
  {
    tables, views := [], [];
    for n := 0 to |relations|
      invariant tables == Each(TableOf(r), Filter(IsTable, relations[..n]))
      invariant views == Each(ViewOf(r), Filter(IsView, relations[..n]))
    {
      var rel := relations[n];
      ghost var before := relations[..n];
      OneMore(IsTable, relations, n);
      OneMore(IsView, relations, n);
      if rel.kind == "view" {
        EachMore(ViewOf(r), Filter(IsView, before), rel);
        var t := BuildView(r, rel, g);
        views := views + [t];
      } else {
        EachMore(TableOf(r), Filter(IsTable, before), rel);
        var t := BuildTable(r, rel, g);
        tables := tables + [t];
      }
    }
    assert relations[..|relations|] == relations;
  }

  lemma EachMore<A, B>(f: A -> B, s: seq<A>, x: A)
    ensures Each(f, s + [x]) == Each(f, s) + [f(x)]
  {
    EachConcat(f, s, [x]);
    assert [x][1..] == [];
  }

  // The sorted rows spread over the schemas.
  datatype Lists = Lists(
    relations: seq<seq<RelationRow>>, indexes: seq<seq<IndexRow>>, triggers: seq<seq<TriggerRow>>,
    stats: seq<seq<StatRow>>, types: seq<seq<TypeRow>>, functions: seq<seq<FunctionRow>>)

  ghost predicate ListsAre(l: Lists, r: Rows) {
    && SpreadAs(l.relations, r.relations, RelationSchema, r.schemas)
    && SpreadAs(l.indexes, r.indexes, IndexSchema, r.schemas)
    && SpreadAs(l.triggers, r.triggers, TriggerSchema, r.schemas)
    && SpreadAs(l.stats, r.stats, StatSchema, r.schemas)
    && SpreadAs(l.types, r.types, TypeSchema, r.schemas)
    && SpreadAs(l.functions, r.functions, FunctionSchema, r.schemas)
  }

  method SpreadRows(r: Rows) returns (l: Lists)
    ensures ListsAre(l, r)
  {
    var bySchema := IndexSchemas(r.schemas);
    var relations := Spread(r.relations, RelationSchema, r.schemas, bySchema);
    var indexes := Spread(r.indexes, IndexSchema, r.schemas, bySchema);
    var triggers := Spread(r.triggers, TriggerSchema, r.schemas, bySchema);
    var stats := Spread(r.stats, StatSchema, r.schemas, bySchema);
    var types := Spread(r.types, TypeSchema, r.schemas, bySchema);
    var functions := Spread(r.functions, FunctionSchema, r.schemas, bySchema);
    l := Lists(relations, indexes, triggers, stats, types, functions);
  }

  method GroupAll(r: Rows) returns (g: Groups)
    ensures GroupsAre(g, r)
  {
    var rows := GroupRows(r.columns, ColumnTable);
    var keys := GroupRows(r.primaryKeys, KeyTable);
    var refs := GroupForeignKeys(r);
    var columns := MarkTables(r, rows, keys, refs);
    var indexColumns := GroupRows(r.indexColumns, IndexOf);
    g := Groups(columns, keys, refs, indexColumns);
  }

  method BuildIndexes(r: Rows, indexes: seq<IndexRow>, g: Groups) returns (infos: seq<IndexInfo>)
    requires GroupsAre(g, r)
    ensures infos == Each(IndexInfoOf(r), indexes)
  {
    infos := [];
    for n := 0 to |indexes|
      invariant infos == Each(IndexInfoOf(r), indexes[..n])
    {
      var i := indexes[n];
      assert indexes[..n + 1] == indexes[..n] + [i];
      EachMore(IndexInfoOf(r), indexes[..n], i);
      infos := infos + [IndexInfo(i.name, i.table, i.ddl,
          Filter(HasName, Grouped(g.indexColumns, (i.schema, i.table, i.name))))];
    }
    assert indexes[..|indexes|] == indexes;
  }

  method BuildSchema(r: Rows, i: nat, g: Groups, l: Lists) returns (s: Schema)
    requires i < |r.schemas| && GroupsAre(g, r) && ListsAre(l, r)
    ensures s == SchemaAt(r, i)
  {
    var row := r.schemas[i];
    assert SpreadAt(l.relations, r.relations, RelationSchema, r.schemas, i);
    assert SpreadAt(l.indexes, r.indexes, IndexSchema, r.schemas, i);
    assert SpreadAt(l.triggers, r.triggers, TriggerSchema, r.schemas, i);
    assert SpreadAt(l.types, r.types, TypeSchema, r.schemas, i);
    assert SpreadAt(l.functions, r.functions, FunctionSchema, r.schemas, i);
    forall rel | rel in l.relations[i] ensures rel in r.relations {
      FilterMember(KeyIs(RelationSchema, row.name), r.relations, rel);
    }
    var tables, views := BuildRelations(r, l.relations[i], g);
    var indexes := BuildIndexes(r, l.indexes[i], g);
    var stats: map<string, string> := map[];
    assert SpreadAt(l.stats, r.stats, StatSchema, r.schemas, i);
    if forall j :: i < j < |r.schemas| ==> r.schemas[j].name != row.name {
      stats := BuildStats(l.stats[i], r, row.name);
    } else {
      assert l.stats[i] == [];
    }
    s := Schema(row.name, tables, views, indexes, l.triggers[i], stats, l.types[i], l.functions[i],
                if row.catalog then r.settings else [], !row.catalog);
  }

  class SchemaRows {
    const lower: string -> string
    var rows: Rows

    constructor (lower: string -> string, rows: Rows)
      ensures this.lower == lower && this.rows == rows
    {
      this.lower, this.rows := lower, rows;
    }

    // Sorts the rows and groups them into schemas.
    method Metadata() returns (schemas: seq<Schema>)
      modifies this
      ensures rows == SortRows(lower, old(rows)) && schemas == MetadataOf(lower, old(rows))
    {
      rows := SortRows(lower, rows);
      var g := GroupAll(rows);
      var l := SpreadRows(rows);
      schemas := [];
      for i := 0 to |rows.schemas|
        invariant rows == SortRows(lower, old(rows))
        invariant |schemas| == i && forall j :: 0 <= j < i ==> schemas[j] == SchemaAt(rows, j)
      {
        var s := BuildSchema(rows, i, g, l);
        schemas := schemas + [s];
      }
    }
  }

  // ---- The order of the rows does not matter ----

  // No two different rows of a group share the key that tells its rows apart.
  ghost predicate DistinctKeys(r: Rows) {
    && Distinct(r.relations, (a: RelationRow) => (a.schema, a.name))
    && Distinct(r.columns, (a: ColumnRow) => (ColumnTable(a), a.position))
    && Distinct(r.primaryKeys, (a: KeyColumnRow) => (KeyTable(a), a.position))
    && Distinct(r.foreignKeys, ForeignKeyOf)
    && Distinct(r.indexes, (a: IndexRow) => (a.schema, a.table, a.name))
    && Distinct(r.indexColumns, (a: IndexColumnRow) => (IndexOf(a), a.position))
    && Distinct(r.triggers, (a: TriggerRow) => (a.schema, a.name))
    && Distinct(r.stats, StatOf)
    && Distinct(r.types, (a: TypeRow) => (a.schema, a.name))
    && Distinct(r.functions, (a: FunctionRow) => (a.schema, a.name, a.oid))
    && Distinct(r.settings, SettingName)
  }

  ghost predicate Distinct<R, K>(rows: seq<R>, key: R -> K) {
    forall a, b :: a in rows && b in rows && key(a) == key(b) ==> a == b
  }

  // The same rows of every kind, in any order.
  ghost predicate SameRows(r: Rows, q: Rows) {
    && multiset(r.schemas) == multiset(q.schemas) && multiset(r.relations) == multiset(q.relations)
    && multiset(r.columns) == multiset(q.columns) && multiset(r.primaryKeys) == multiset(q.primaryKeys)
    && multiset(r.foreignKeys) == multiset(q.foreignKeys) && multiset(r.indexes) == multiset(q.indexes)
    && multiset(r.indexColumns) == multiset(q.indexColumns) && multiset(r.triggers) == multiset(q.triggers)
    && multiset(r.stats) == multiset(q.stats) && multiset(r.types) == multiset(q.types)
    && multiset(r.functions) == multiset(q.functions) && multiset(r.settings) == multiset(q.settings)
  }

  // Everything assembling looks at is the same.
  ghost predicate Agree(a: Rows, b: Rows) {
    && a.schemas == b.schemas && a.settings == b.settings
    && (forall k :: Filter(KeyIs(RelationSchema, k), a.relations) == Filter(KeyIs(RelationSchema, k), b.relations))
    && (forall k :: Filter(KeyIs(ColumnTable, k), a.columns) == Filter(KeyIs(ColumnTable, k), b.columns))
    && (forall k :: Filter(KeyIs(KeyTable, k), a.primaryKeys) == Filter(KeyIs(KeyTable, k), b.primaryKeys))
    && (forall k :: LastWith(KeyIs(ForeignKeyOf, k), a.foreignKeys) == LastWith(KeyIs(ForeignKeyOf, k), b.foreignKeys))
    && (forall k :: Filter(KeyIs(IndexSchema, k), a.indexes) == Filter(KeyIs(IndexSchema, k), b.indexes))
    && (forall k :: Filter(KeyIs(IndexOf, k), a.indexColumns) == Filter(KeyIs(IndexOf, k), b.indexColumns))
    && (forall k :: Filter(KeyIs(TriggerSchema, k), a.triggers) == Filter(KeyIs(TriggerSchema, k), b.triggers))
    && (forall s :: s in a.stats <==> s in b.stats)
    && (forall k :: LastWith(KeyIs(StatOf, k), a.stats) == LastWith(KeyIs(StatOf, k), b.stats))
    && (forall k :: Filter(KeyIs(TypeSchema, k), a.types) == Filter(KeyIs(TypeSchema, k), b.types))
    && (forall k :: Filter(KeyIs(FunctionSchema, k), a.functions) == Filter(KeyIs(FunctionSchema, k), b.functions))
  }

  lemma AgreeOnTable(a: Rows, b: Rows, rel: RelationRow)
    requires Agree(a, b)
    ensures TableOf(a)(rel) == TableOf(b)(rel) && ViewOf(a)(rel) == ViewOf(b)(rel)
  {
    var k := RelationOf(rel);
    var keys := KeysAt(a, k);
    assert ColumnsAt(a, k) == ColumnsAt(b, k) && KeysAt(b, k) == keys;
    forall c ensures KeyedColumn(a, k, keys)(c) == KeyedColumn(b, k, keys)(c) {
      assert LastWith(KeyIs(ForeignKeyOf, (k.0, k.1, c.name)), a.foreignKeys) ==
             LastWith(KeyIs(ForeignKeyOf, (k.0, k.1, c.name)), b.foreignKeys);
    }
    EachSame(KeyedColumn(a, k, keys), KeyedColumn(b, k, keys), ColumnsAt(a, k));
    AgreeOnNames(a, b, k);
  }

  lemma AgreeOnNames(a: Rows, b: Rows, k: (string, string))
    requires Agree(a, b)
    ensures TableNamed(a.relations, k) <==> TableNamed(b.relations, k)
  {
    assert Filter(KeyIs(RelationSchema, k.0), a.relations) == Filter(KeyIs(RelationSchema, k.0), b.relations);
    forall rel: RelationRow | rel.schema == k.0 ensures rel in a.relations <==> rel in b.relations {
      FilterMember(KeyIs(RelationSchema, k.0), a.relations, rel);
      FilterMember(KeyIs(RelationSchema, k.0), b.relations, rel);
    }
  }

  lemma AgreeOnRelations(a: Rows, b: Rows, relations: seq<RelationRow>)
    requires Agree(a, b)
    ensures Each(TableOf(a), relations) == Each(TableOf(b), relations)
    ensures Each(ViewOf(a), relations) == Each(ViewOf(b), relations)
  {
    forall rel ensures TableOf(a)(rel) == TableOf(b)(rel) && ViewOf(a)(rel) == ViewOf(b)(rel) {
      AgreeOnTable(a, b, rel);
    }
    EachSame(TableOf(a), TableOf(b), relations);
    EachSame(ViewOf(a), ViewOf(b), relations);
  }

  lemma AgreeOnSchema(a: Rows, b: Rows, s: SchemaRow)
    requires Agree(a, b)
    ensures Filled(a, s) == Filled(b, s)
  {
    var relations := Filter(KeyIs(RelationSchema, s.name), a.relations);
    assert relations == Filter(KeyIs(RelationSchema, s.name), b.relations);
    AgreeOnRelations(a, b, Filter(IsTable, relations));
    AgreeOnRelations(a, b, Filter(IsView, relations));
    AgreeOnIndexes(a, b, s.name);
    AgreeOnStats(a, b, s.name);
  }

  lemma AgreeOnIndexes(a: Rows, b: Rows, schema: string)
    requires Agree(a, b)
    ensures Each(IndexInfoOf(a), Filter(KeyIs(IndexSchema, schema), a.indexes)) ==
            Each(IndexInfoOf(b), Filter(KeyIs(IndexSchema, schema), b.indexes))
  {
    EachSame(IndexInfoOf(a), IndexInfoOf(b), Filter(KeyIs(IndexSchema, schema), a.indexes));
  }

  lemma AgreeOnStats(a: Rows, b: Rows, schema: string)
    requires Agree(a, b)
    ensures StatsOf(a, schema) == StatsOf(b, schema)
  {
    assert StatNames(a, schema) == StatNames(b, schema);
  }

  lemma AgreeAssembles(a: Rows, b: Rows)
    requires Agree(a, b)
    ensures Assembled(a) == Assembled(b)
  {
    forall i | 0 <= i < |a.schemas| ensures SchemaAt(a, i) == SchemaAt(b, i) {
      AgreeOnSchema(a, b, a.schemas[i]);
    }
  }

  // Sorting then grouping by a key forgets the order when rows of one group
  // that tie are the same row.
  lemma GroupForgets<R(!new), K(!new)>(cmp: Compare<R>, key: R -> K, s: seq<R>, t: seq<R>)
    requires Orders(cmp) && multiset(s) == multiset(t)
    requires forall x, y :: x in s && y in s && key(x) == key(y) && cmp(x, y) == 0 ==> x == y
    ensures forall k :: Filter(KeyIs(key, k), SortStable(cmp, s)) == Filter(KeyIs(key, k), SortStable(cmp, t))
  {
    forall k ensures Filter(KeyIs(key, k), SortStable(cmp, s)) == Filter(KeyIs(key, k), SortStable(cmp, t)) {
      forall x ensures x in Filter(KeyIs(key, k), s) <==> x in s && key(x) == k {
        FilterMember(KeyIs(key, k), s, x);
      }
      OrderForgotten(cmp, KeyIs(key, k), s, t);
    }
  }

  lemma WholeForgets<R(!new)>(cmp: Compare<R>, s: seq<R>, t: seq<R>)
    requires Orders(cmp) && multiset(s) == multiset(t) && TiesAreEqual(cmp, s)
    ensures SortStable(cmp, s) == SortStable(cmp, t)
  {
    SortKeeps(cmp, s);
    SortKeeps(cmp, t);
    SortSorts(cmp, s);
    SortSorts(cmp, t);
    InMultiset(SortStable(cmp, s), s);
    SortedIsUnique(cmp, SortStable(cmp, s), SortStable(cmp, t));
  }

  lemma NameTies<T>(lower: string -> string, key: T -> string, a: T, b: T)
    ensures OnName(lower, key)(a, b) == 0 <==> key(a) == key(b)
  {
    NamesAreOrdered(lower, key(a), key(b), key(a));
  }

  lemma SchemaTies(lower: string -> string, a: SchemaRow, b: SchemaRow)
    ensures BySchema(lower)(a, b) == 0 ==> a == b
  {
    ThenTies(OnInt(CatalogLast), OnName(lower, SchemaName), a, b);
    OnIntTies(CatalogLast, a, b);
    NameTies(lower, SchemaName, a, b);
  }

  lemma SchemasOrder(lower: string -> string)
    ensures Orders(BySchema(lower))
  {
    OnIntOrders(CatalogLast);
    OnNameOrders(lower, SchemaName);
    ThenOrders(OnInt(CatalogLast), OnName(lower, SchemaName));
  }

  lemma SchemasForget(lower: string -> string, r: Rows, q: Rows)
    requires SameRows(r, q)
    ensures SortRows(lower, r).schemas == SortRows(lower, q).schemas
  {
    SchemasOrder(lower);
    forall a, b ensures BySchema(lower)(a, b) == 0 ==> a == b {
      SchemaTies(lower, a, b);
    }
    WholeForgets(BySchema(lower), r.schemas, q.schemas);
  }

  lemma SettingsForget(lower: string -> string, r: Rows, q: Rows)
    requires SameRows(r, q) && DistinctKeys(r)
    ensures SortRows(lower, r).settings == SortRows(lower, q).settings
  {
    OnNameOrders(lower, SettingName);
    forall a, b ensures BySetting(lower)(a, b) == 0 ==> a.name == b.name {
      NameTies(lower, SettingName, a, b);
    }
    WholeForgets(BySetting(lower), r.settings, q.settings);
  }

  lemma RelationsForget(lower: string -> string, r: Rows, q: Rows)
    requires SameRows(r, q) && DistinctKeys(r)
    ensures var a, b := SortRows(lower, r), SortRows(lower, q);
            forall k :: Filter(KeyIs(RelationSchema, k), a.relations) == Filter(KeyIs(RelationSchema, k), b.relations)
  {
    OnNameOrders(lower, RelationSchema);
    OnNameOrders(lower, RelationName);
    ThenOrders(OnName(lower, RelationSchema), OnName(lower, RelationName));
    forall a, b ensures ByRelation(lower)(a, b) == 0 ==> a.schema == b.schema && a.name == b.name {
      ThenTies(OnName(lower, RelationSchema), OnName(lower, RelationName), a, b);
      NameTies(lower, RelationSchema, a, b);
      NameTies(lower, RelationName, a, b);
    }
    GroupForgets(ByRelation(lower), RelationSchema, r.relations, q.relations);
  }

  lemma IndexesForget(lower: string -> string, r: Rows, q: Rows)
    requires SameRows(r, q) && DistinctKeys(r)
    ensures var a, b := SortRows(lower, r), SortRows(lower, q);
            forall k :: Filter(KeyIs(IndexSchema, k), a.indexes) == Filter(KeyIs(IndexSchema, k), b.indexes)
  {
    OnNameOrders(lower, IndexTable);
    OnNameOrders(lower, IndexName);
    ThenOrders(OnName(lower, IndexTable), OnName(lower, IndexName));
    forall a, b ensures ByIndex(lower)(a, b) == 0 ==> a.table == b.table && a.name == b.name {
      ThenTies(OnName(lower, IndexTable), OnName(lower, IndexName), a, b);
      NameTies(lower, IndexTable, a, b);
      NameTies(lower, IndexName, a, b);
    }
    GroupForgets(ByIndex(lower), IndexSchema, r.indexes, q.indexes);
  }

  // Rows sorted by position alone.
  lemma PositionForgets<R(!new), K(!new)>(position: R -> int, key: R -> K, s: seq<R>, t: seq<R>)
    requires multiset(s) == multiset(t)
    requires forall x, y :: x in s && y in s && key(x) == key(y) && position(x) == position(y) ==> x == y
    ensures forall k ::
              Filter(KeyIs(key, k), SortStable(OnInt(position), s)) ==
              Filter(KeyIs(key, k), SortStable(OnInt(position), t))
  {
    OnIntOrders(position);
    forall x, y ensures OnInt(position)(x, y) == 0 <==> position(x) == position(y) {
      OnIntTies(position, x, y);
    }
    GroupForgets(OnInt(position), key, s, t);
  }

  lemma PositionsForget(lower: string -> string, r: Rows, q: Rows)
    requires SameRows(r, q) && DistinctKeys(r)
    ensures var a, b := SortRows(lower, r), SortRows(lower, q);
            && (forall k :: Filter(KeyIs(ColumnTable, k), a.columns) == Filter(KeyIs(ColumnTable, k), b.columns))
            && (forall k :: Filter(KeyIs(KeyTable, k), a.primaryKeys) == Filter(KeyIs(KeyTable, k), b.primaryKeys))
            && (forall k :: Filter(KeyIs(IndexOf, k), a.indexColumns) == Filter(KeyIs(IndexOf, k), b.indexColumns))
  {
    PositionForgets(ColumnPosition, ColumnTable, r.columns, q.columns);
    PositionForgets(KeyPosition, KeyTable, r.primaryKeys, q.primaryKeys);
    PositionForgets(IndexColumnPosition, IndexOf, r.indexColumns, q.indexColumns);
  }

  // Rows sorted by name alone.
  lemma NameForgets<R(!new), K(!new)>(lower: string -> string, name: R -> string, key: R -> K, s: seq<R>, t: seq<R>)
    requires multiset(s) == multiset(t)
    requires forall x, y :: x in s && y in s && key(x) == key(y) && name(x) == name(y) ==> x == y
    ensures forall k ::
              Filter(KeyIs(key, k), SortStable(OnName(lower, name), s)) ==
              Filter(KeyIs(key, k), SortStable(OnName(lower, name), t))
  {
    OnNameOrders(lower, name);
    forall x, y ensures OnName(lower, name)(x, y) == 0 <==> name(x) == name(y) {
      NameTies(lower, name, x, y);
    }
    GroupForgets(OnName(lower, name), key, s, t);
  }

  lemma ObjectsForget(lower: string -> string, r: Rows, q: Rows)
    requires SameRows(r, q) && DistinctKeys(r)
    ensures var a, b := SortRows(lower, r), SortRows(lower, q);
            && (forall k :: Filter(KeyIs(TriggerSchema, k), a.triggers) == Filter(KeyIs(TriggerSchema, k), b.triggers))
            && (forall k :: Filter(KeyIs(TypeSchema, k), a.types) == Filter(KeyIs(TypeSchema, k), b.types))
  {
    NameForgets(lower, TriggerName, TriggerSchema, r.triggers, q.triggers);
    NameForgets(lower, TypeName, TypeSchema, r.types, q.types);
  }

  lemma FunctionsForget(lower: string -> string, r: Rows, q: Rows)
    requires SameRows(r, q) && DistinctKeys(r)
    ensures var a, b := SortRows(lower, r), SortRows(lower, q);
            forall k :: Filter(KeyIs(FunctionSchema, k), a.functions) == Filter(KeyIs(FunctionSchema, k), b.functions)
  {
    OnNameOrders(lower, FunctionName);
    OnIntOrders(FunctionOid);
    ThenOrders(OnName(lower, FunctionName), OnInt(FunctionOid));
    forall a, b ensures ByFunction(lower)(a, b) == 0 ==> a.name == b.name && a.oid == b.oid {
      ThenTies(OnName(lower, FunctionName), OnInt(FunctionOid), a, b);
      NameTies(lower, FunctionName, a, b);
      OnIntTies(FunctionOid, a, b);
    }
    GroupForgets(ByFunction(lower), FunctionSchema, r.functions, q.functions);
  }

  lemma LastsForget(r: Rows, q: Rows)
    requires SameRows(r, q) && DistinctKeys(r)
    ensures forall k ::
              LastWith(KeyIs(ForeignKeyOf, k), r.foreignKeys) ==
              LastWith(KeyIs(ForeignKeyOf, k), q.foreignKeys)
    ensures forall k :: LastWith(KeyIs(StatOf, k), r.stats) == LastWith(KeyIs(StatOf, k), q.stats)
    ensures forall s :: s in r.stats <==> s in q.stats
  {
    InMultiset(r.stats, q.stats);
    forall k ensures LastWith(KeyIs(ForeignKeyOf, k), r.foreignKeys) ==
        LastWith(KeyIs(ForeignKeyOf, k), q.foreignKeys) {
      LastForgotten(KeyIs(ForeignKeyOf, k), r.foreignKeys, q.foreignKeys);
    }
    forall k ensures LastWith(KeyIs(StatOf, k), r.stats) == LastWith(KeyIs(StatOf, k), q.stats) {
      LastForgotten(KeyIs(StatOf, k), r.stats, q.stats);
    }
  }

  // The metadata is the same whatever order the rows came in.
  lemma RowOrderIsForgotten(lower: string -> string, r: Rows, q: Rows)
    requires SameRows(r, q) && DistinctKeys(r)
    ensures MetadataOf(lower, r) == MetadataOf(lower, q)
  {
    SchemasForget(lower, r, q);
    SettingsForget(lower, r, q);
    RelationsForget(lower, r, q);
    IndexesForget(lower, r, q);
    PositionsForget(lower, r, q);
    ObjectsForget(lower, r, q);
    FunctionsForget(lower, r, q);
    LastsForget(r, q);
    AgreeAssembles(SortRows(lower, r), SortRows(lower, q));
  }

  // ---- What the result holds ----

  // A view keeps its columns as read exactly when no table shares its name, or
  // that table has no keys among them.
  lemma ViewsKeepTheirColumns(r: Rows, rel: RelationRow)
    ensures var k := RelationOf(rel);
            ViewOf(r)(rel).columns == Each(PlainColumn, ColumnsAt(r, k)) <==>
              !TableNamed(r.relations, k) ||
              forall c :: c in ColumnsAt(r, k) ==> c.name !in KeysAt(r, k) && Reference(r, k.0, k.1, c.name).None?
  {
    var k := RelationOf(rel);
    var rows, keyed := ColumnsAt(r, k), KeyedColumn(r, k, KeysAt(r, k));
    EachAt(PlainColumn, rows);
    EachAt(keyed, rows);
    if Each(keyed, rows) == Each(PlainColumn, rows) {
      forall c | c in rows ensures keyed(c) == PlainColumn(c) {
        var i :| 0 <= i < |rows| && rows[i] == c;
        assert Each(keyed, rows)[i] == Each(PlainColumn, rows)[i];
      }
    }
    if forall c :: c in rows ==> c.name !in KeysAt(r, k) && Reference(r, k.0, k.1, c.name).None? {
      EachSame(keyed, PlainColumn, rows);
    }
  }

  // A view and a table of one name, the table keyed by its only column.
  const TWICE_NAMED := Rows(
    [], [RelationRow("s", "t", "view", "", ""), RelationRow("s", "t", "table", "", "")],
    [ColumnRow("s", "t", "c", "int", false, None, 1, "")], [KeyColumnRow("s", "t", "c", 1)],
    [], [], [], [], [], [], [], [])

  lemma ViewCanBeMarked()
    ensures var view := TWICE_NAMED.relations[0];
            IsView(view) && ViewOf(TWICE_NAMED)(view).columns != Each(PlainColumn, ColumnsAt(TWICE_NAMED, ("s", "t")))
  {
    var r := TWICE_NAMED;
    MarkedByTable(r, r.relations[0], r.relations[1], r.columns[0], r.primaryKeys[0]);
  }

  lemma MarkedByTable(r: Rows, view: RelationRow, table: RelationRow, c: ColumnRow, key: KeyColumnRow)
    requires r.columns == [c] && r.primaryKeys == [key] && key.column == c.name
    requires table in r.relations && IsTable(table)
    requires RelationOf(view) == RelationOf(table) == ColumnTable(c) == KeyTable(key)
    ensures ViewOf(r)(view).columns != Each(PlainColumn, ColumnsAt(r, RelationOf(view)))
  {
    var k := RelationOf(view);
    assert TableNamed(r.relations, k);
    FilterMember(KeyIs(ColumnTable, k), r.columns, c);
    assert r.primaryKeys[1..] == [] && Filter(KeyIs(KeyTable, k), r.primaryKeys) == [key];
    assert KeysAt(r, k)[0] == c.name;
    ViewsKeepTheirColumns(r, view);
  }

  // Every relation row of a listed schema is there exactly once, as a table or as a view.
  lemma RelationsAreListed(lower: string -> string, r: Rows, i: nat)
    requires var sorted := SortRows(lower, r); i < |sorted.schemas| && NamedLast(sorted.schemas, i)
    ensures var sorted := SortRows(lower, r);
            var s, relations := MetadataOf(lower, r)[i],
                Filter(KeyIs(RelationSchema, sorted.schemas[i].name), sorted.relations);
            var tables, views := Filter(IsTable, relations), Filter(IsView, relations);
            && s.tables == Each(TableOf(sorted), tables) && s.views == Each(ViewOf(sorted), views)
            && multiset(tables) + multiset(views) == multiset(Filter(KeyIs(RelationSchema, s.name), r.relations))
  {
    var sorted := SortRows(lower, r);
    var p := KeyIs(RelationSchema, sorted.schemas[i].name);
    FilterSplits(IsTable, IsView, Filter(p, sorted.relations));
    SortKeeps(ByRelation(lower), r.relations);
    forall x ensures multiset(Filter(p, sorted.relations))[x] == multiset(Filter(p, r.relations))[x] {
      FilterKeeps(p, sorted.relations, x);
      FilterKeeps(p, r.relations, x);
    }
    assert multiset(Filter(p, sorted.relations)) == multiset(Filter(p, r.relations));
  }

  lemma {:induction false} SortedAt<T(!new)>(cmp: Compare<T>, s: seq<T>, i: nat, j: nat)
    requires Sorted(cmp, s) && i < j < |s|
    ensures cmp(s[i], s[j]) <= 0
  {
    if i > 0 {
      SortedAt(cmp, s[1..], i - 1, j - 1);
    } else {
      assert s[j] == s[1..][j - 1];
    }
  }

  // User schemas come first; so a sole catalog schema is always the last one.
  lemma CatalogsComeLast(lower: string -> string, r: Rows, i: nat, j: nat)
    requires i < j < |MetadataOf(lower, r)|
    ensures var sorted := SortRows(lower, r).schemas;
            |sorted| == |MetadataOf(lower, r)| && (sorted[i].catalog ==> sorted[j].catalog)
  {
    var sorted := SortRows(lower, r).schemas;
    SchemasOrder(lower);
    SortSorts(BySchema(lower), r.schemas);
    SortedAt(BySchema(lower), sorted, i, j);
    ThenTies(OnInt(CatalogLast), OnName(lower, SchemaName), sorted[i], sorted[j]);
    assert CompareInts(CatalogLast(sorted[i]), CatalogLast(sorted[j])) <= 0;
  }

  lemma SoleCatalogIsLast(lower: string -> string, r: Rows, i: nat)
    requires var sorted := SortRows(lower, r).schemas;
             i < |sorted| && sorted[i].catalog && forall j :: 0 <= j < |sorted| && sorted[j].catalog ==> j == i
    ensures i == |MetadataOf(lower, r)| - 1 && MetadataOf(lower, r)[i].settings == SortRows(lower, r).settings
  {
    var n := |MetadataOf(lower, r)|;
    if i < n - 1 {
      CatalogsComeLast(lower, r, i, n - 1);
    }
  }
}
