// What an inspector reports about a SQL statement: the relations and columns it
// names, and the statements nested in it.
module Statements {
  import opened Collections

  // The operations that act on rows, the one that needs no right, and the rest.
  datatype Operation = Select | Insert | Update | Delete | Transaction | Other(name: string)

  datatype Field = Field(name: string, alias: Option<string>, table: string, schema: string)
  datatype Table = Table(name: string, schema: string, alias: Option<string>, bare: bool)

  datatype Statement = Statement(
    op: Operation,
    fields: seq<Field>,
    tables: seq<Table>,
    where: seq<Field>,
    subqueries: seq<Statement>,
    also: seq<Statement>,
    unreadable: bool,
    filter: bool)

  predicate FieldOf(f: Field, t: Table) {
    f.table == t.name && f.schema == t.schema
  }

  predicate OwnsField(s: Statement, f: Field) {
    exists t :: t in s.tables && FieldOf(f, t)
  }

  function Size(s: Statement): nat {
    1 + Sizes(s.subqueries) + Sizes(s.also)
  }

  function Sizes(ss: seq<Statement>): nat {
    if ss == [] then 0 else Size(ss[0]) + Sizes(ss[1..])
  }

  lemma {:induction false} SizeOfNested(ss: seq<Statement>, i: nat)
    requires i < |ss|
    ensures Size(ss[i]) <= Sizes(ss)
  {
    if i > 0 {
      SizeOfNested(ss[1..], i - 1);
    }
  }
}
