// Hiding columns from a result: which positions to mask, which statements to
// refuse because a hidden column cannot be masked, and what a predicate tests.
module SeeChecks {
  import opened Collections
  import opened Statements
  import opened Permissions
  import opened StatementChecks

  function OutputName(f: Field): string {
    if f.alias.Some? && f.alias.value != "" then f.alias.value else f.name
  }

  predicate ReturnsRows(op: Operation) {
    op.Select? || IsWrite(op)
  }

  // The columns a statement hands back: its own, and those of a read it also performs.
  function ReturnedFields(s: Statement): seq<Field> {
    s.fields + AlsoReturned(s.also)
  }

  function AlsoReturned(also: seq<Statement>): seq<Field> {
    if also == [] then []
    else (if also[0].op.Select? then also[0].fields else []) + AlsoReturned(also[1..])
  }

  // The columns a statement's subqueries can return; a filter's rows are a condition.
  function NestedReadFields(s: Statement): seq<Field> {
    NestedReadIn(s.subqueries)
  }

  function NestedReadIn(ss: seq<Statement>): seq<Field> {
    if ss == [] then []
    else if ss[0].filter then NestedReadIn(ss[1..])
    else ss[0].fields + (NestedReadFields(ss[0]) + NestedReadIn(ss[1..]))
  }

  // The columns a statement tests rather than returns, its subqueries included.
  function PredicateFields(s: Statement, tested: bool): seq<Field> {
    s.where + ((if tested then s.fields else []) + PredicateIn(s.subqueries, tested || IsWrite(s.op)))
  }

  function PredicateIn(ss: seq<Statement>, tested: bool): seq<Field> {
    if ss == [] then []
    else PredicateFields(ss[0], tested || ss[0].filter) + PredicateIn(ss[1..], tested)
  }

  // Who may see what, and how a field's name is compared with a driver column.
  datatype Viewer = Viewer(idx: Compiled, ds: string, fold: (string, string) -> bool) {
    predicate Hidden(f: Field) {
      f.schema != "" && f.table != "" && !IsAllowed(idx, ds, f.schema, f.table, f.name, SEE)
    }

    predicate Matches(f: Field, column: string) {
      fold(OutputName(f), column)
    }

    // The column comes from a table one of the fields resolved to.
    ghost predicate Resolves(fields: seq<Field>, column: string) {
      exists f :: f in fields && Matches(f, column) && f.schema != "" && f.table != ""
    }

    ghost predicate Hides(fields: seq<Field>, column: string) {
      exists f :: f in fields && Matches(f, column) && Hidden(f)
    }

    // The statement's own fields decide where they resolve the column.
    ghost predicate Masked(own: seq<Field>, nested: seq<Field>, column: string) {
      if Resolves(own, column) then Hides(own, column) else Hides(nested, column)
    }

    ghost predicate Accounted(own: seq<Field>, nested: seq<Field>, columns: seq<string>) {
      forall p :: 0 <= p < |columns| ==> Resolves(own, columns[p]) || Resolves(nested, columns[p])
    }

    // Some position reads this field of the statement's own.
    ghost predicate Reached(f: Field, columns: seq<string>) {
      exists p :: 0 <= p < |columns| && Matches(f, columns[p])
    }

    // Some position the statement's own fields do not resolve reads this nested field.
    ghost predicate ReachedBelow(own: seq<Field>, f: Field, columns: seq<string>) {
      exists p :: 0 <= p < |columns| && Matches(f, columns[p]) && !Resolves(own, columns[p])
    }

    // Every hidden column that is returned has a position to mask.
    ghost predicate Maskable(own: seq<Field>, nested: seq<Field>, columns: seq<string>) {
      && (forall f :: f in own && Hidden(f) ==> Reached(f, columns))
      && (Accounted(own, nested, columns) || forall f :: f in nested && Hidden(f) ==> ReachedBelow(own, f, columns))
    }

    ghost predicate Masks(positions: seq<nat>, own: seq<Field>, nested: seq<Field>, columns: seq<string>) {
      && (forall i, j :: 0 <= i < j < |positions| ==> positions[i] < positions[j])
      && (forall p :: p in positions <==> 0 <= p < |columns| && Masked(own, nested, columns[p]))
    }
  }

  // Marks in matched, from offset on, the fields a column could come out under.
  method SeeColumn(fields: seq<Field>, offset: nat, column: string, matched: array<bool>, v: Viewer)
    returns (resolved: bool, deny: bool)
    requires offset + |fields| <= matched.Length
    modifies matched
    ensures resolved <==> v.Resolves(fields, column)
    ensures deny <==> v.Hides(fields, column)
    ensures forall j :: 0 <= j < matched.Length ==>
              matched[j] == (old(matched[j]) ||
                             (offset <= j < offset + |fields| && v.Matches(fields[j - offset], column)))
  {
    resolved, deny := false, false;
    for i := 0 to |fields|
      invariant resolved <==> v.Resolves(fields[..i], column)
      invariant deny <==> v.Hides(fields[..i], column)
      invariant forall j :: 0 <= j < matched.Length ==>
                  matched[j] == (old(matched[j]) || (offset <= j < offset + i && v.Matches(fields[j - offset], column)))
    {
      var f := fields[i];
      assert fields[..i + 1] == fields[..i] + [f];
      assert forall g :: g in fields[..i + 1] <==> g in fields[..i] || g == f;
      if !v.Matches(f, column) {
        continue;
      }
      matched[offset + i] := true;
      if f.schema == "" || f.table == "" {
        continue;
      }
      resolved := true;
      var allowed, _ := Decide(v.idx, v.ds, f.schema, f.table, f.name, SEE);
      if !allowed {
        deny := true;
      }
    }
    assert fields[..|fields|] == fields;
  }

  // Whether a hidden field is left that matched does not mark.
  method HasSeeDenied(fields: seq<Field>, matched: seq<bool>, v: Viewer) returns (found: bool)
    ensures found <==> exists i :: 0 <= i < |fields| && v.Hidden(fields[i]) && !(i < |matched| && matched[i])
  {
    found := false;
    for i := 0 to |fields|
      invariant forall j :: 0 <= j < i && v.Hidden(fields[j]) ==> j < |matched| && matched[j]
    {
      if i < |matched| && matched[i] {
        continue;
      }
      if fields[i].schema == "" || fields[i].table == "" {
        continue;
      }
      var allowed, _ := Decide(v.idx, v.ds, fields[i].schema, fields[i].table, fields[i].name, SEE);
      if !allowed {
        return true;
      }
    }
  }

  // What the loop over the result columns has established after n of them.
  ghost predicate Scanned(v: Viewer, own: seq<Field>, nested: seq<Field>, columns: seq<string>,
                          matched: seq<bool>, accounted: bool, positions: seq<nat>)
  {
    && |matched| == |own| + |nested|
    && (forall j :: 0 <= j < |matched| ==>
          (matched[j] <==>
             if j < |own| then v.Reached(own[j], columns) else v.ReachedBelow(own, nested[j - |own|], columns)))
    && (accounted <==> v.Accounted(own, nested, columns))
    && v.Masks(positions, own, nested, columns)
  }

  // Whether a column marks field j of own followed by nested.
  ghost predicate Marks(v: Viewer, own: seq<Field>, nested: seq<Field>, column: string, j: nat)
    requires j < |own| + |nested|
  {
    if j < |own| then v.Matches(own[j], column)
    else !v.Resolves(own, column) && v.Matches(nested[j - |own|], column)
  }

  lemma ScannedMore(v: Viewer, own: seq<Field>, nested: seq<Field>, all: seq<string>, i: nat,
                    matched: seq<bool>, accounted: bool, positions: seq<nat>,
                    matched': seq<bool>, accounted': bool, positions': seq<nat>)
    requires i < |all| && Scanned(v, own, nested, all[..i], matched, accounted, positions)
    requires |matched'| == |matched|
    requires forall j :: 0 <= j < |matched| ==> matched'[j] == (matched[j] || Marks(v, own, nested, all[i], j))
    requires accounted' <==> accounted && (v.Resolves(own, all[i]) || v.Resolves(nested, all[i]))
    requires positions' == if v.Masked(own, nested, all[i]) then positions + [i] else positions
    ensures Scanned(v, own, nested, all[..i + 1], matched', accounted', positions')
  {
    var columns, column := all[..i], all[i];
    var more := all[..i + 1];
    assert more == columns + [column];
    assert more[|columns|] == column && forall p :: 0 <= p < |columns| ==> more[p] == columns[p];
    forall j | 0 <= j < |matched'|
      ensures matched'[j] <==>
                if j < |own| then v.Reached(own[j], more) else v.ReachedBelow(own, nested[j - |own|], more)
    {
      if j < |own| {
        ReachedMore(v, own[j], columns, column);
      } else {
        ReachedBelowMore(v, own, nested[j - |own|], columns, column);
      }
    }
    AccountedMore(v, own, nested, columns, column);
    MasksMore(v, own, nested, columns, column, positions);
  }

  lemma ReachedMore(v: Viewer, f: Field, columns: seq<string>, column: string)
    ensures v.Reached(f, columns + [column]) <==> v.Reached(f, columns) || v.Matches(f, column)
  {
    var more := columns + [column];
    assert more[|columns|] == column && forall p :: 0 <= p < |columns| ==> more[p] == columns[p];
  }

  lemma ReachedBelowMore(v: Viewer, own: seq<Field>, f: Field, columns: seq<string>, column: string)
    ensures v.ReachedBelow(own, f, columns + [column]) <==>
              v.ReachedBelow(own, f, columns) || (!v.Resolves(own, column) && v.Matches(f, column))
  {
    var more := columns + [column];
    assert more[|columns|] == column && forall p :: 0 <= p < |columns| ==> more[p] == columns[p];
  }

  lemma AccountedMore(v: Viewer, own: seq<Field>, nested: seq<Field>, columns: seq<string>, column: string)
    ensures v.Accounted(own, nested, columns + [column]) <==>
              v.Accounted(own, nested, columns) && (v.Resolves(own, column) || v.Resolves(nested, column))
  {
    var more := columns + [column];
    assert more[|columns|] == column && forall p :: 0 <= p < |columns| ==> more[p] == columns[p];
  }

  lemma MasksMore(v: Viewer, own: seq<Field>, nested: seq<Field>, columns: seq<string>, column: string,
      positions: seq<nat>)
    requires v.Masks(positions, own, nested, columns)
    ensures v.Masks(if v.Masked(own, nested, column) then positions + [|columns|] else positions,
                    own, nested, columns + [column])
  {
    var more := columns + [column];
    var positions' := if v.Masked(own, nested, column) then positions + [|columns|] else positions;
    assert more[|columns|] == column && forall p :: 0 <= p < |columns| ==> more[p] == columns[p];
    assert forall i :: 0 <= i < |positions| ==> positions[i] in positions;
    forall p ensures p in positions' <==> 0 <= p < |more| && v.Masked(own, nested, more[p]) {
      assert p in positions' <==> p in positions || (v.Masked(own, nested, column) && p == |columns|);
    }
  }

  // The statement's own projection decides where it resolves the column, so a
  // name another scope reuses cannot hide one it shows.
  method SeePosition(own: seq<Field>, nested: seq<Field>, column: string, matched: array<bool>, v: Viewer)
    returns (resolved: bool, deny: bool)
    requires matched.Length == |own| + |nested|
    modifies matched
    ensures resolved <==> v.Resolves(own, column) || v.Resolves(nested, column)
    ensures deny <==> v.Masked(own, nested, column)
    ensures forall j :: 0 <= j < matched.Length ==> matched[j] == (old(matched[j]) || Marks(v, own, nested, column, j))
  {
    resolved, deny := SeeColumn(own, 0, column, matched, v);
    if !resolved {
      resolved, deny := SeeColumn(nested, |own|, column, matched, v);
    }
  }

  // Whether a hidden column is left with no position to mask.
  method Unmaskable(own: seq<Field>, nested: seq<Field>, ghost columns: seq<string>,
                    matched: seq<bool>, accounted: bool, ghost positions: seq<nat>, v: Viewer) returns (refused: bool)
    requires Scanned(v, own, nested, columns, matched, accounted, positions)
    ensures refused <==> !v.Maskable(own, nested, columns)
  {
    refused := HasSeeDenied(own, matched, v);
    if !refused && !accounted {
      var fields := own + nested;
      refused := HasSeeDenied(fields, matched, v);
      assert forall j :: 0 <= j < |fields| ==> fields[j] == if j < |own| then own[j] else nested[j - |own|];
      assert forall i :: 0 <= i < |nested| ==> fields[|own| + i] == nested[i];
    }
  }

  // f comes back to the caller: it is selected or returned, by the statement
  // or by a read performed alongside.
  ghost predicate HandedBack(s: Statement, f: Field) {
    f in s.fields || exists a :: a in s.also && a.op.Select? && f in a.fields
  }

  // f is returned by a subquery, at any depth, that is not below a filter.
  ghost predicate ReadBelow(s: Statement, f: Field) {
    exists q :: q in s.subqueries && !q.filter && (f in q.fields || ReadBelow(q, f))
  }

  // f names a column of a table that the viewer may not see.
  predicate Unseen(v: Viewer, f: Field) {
    f.schema != "" && f.table != "" && !IsAllowed(v.idx, v.ds, f.schema, f.table, f.name, "see")
  }

  // The column comes out under the alias of the field, or under its name without one.
  predicate ComesOut(v: Viewer, f: Field, column: string) {
    v.fold(if f.alias.None? || f.alias.value == "" then f.name else f.alias.value, column)
  }

  // A field that names a table and comes out under the column, handed back by
  // the statement itself.
  ghost predicate ResolvesItself(v: Viewer, s: Statement, column: string) {
    exists f :: HandedBack(s, f) && f.schema != "" && f.table != "" && ComesOut(v, f, column)
  }

  ghost predicate ResolvesBelow(v: Viewer, s: Statement, column: string) {
    exists f :: ReadBelow(s, f) && f.schema != "" && f.table != "" && ComesOut(v, f, column)
  }

  // The column carries one the viewer may not see: of the statement's own where
  // those resolve it, of a subquery otherwise.
  ghost predicate ComesOutHidden(v: Viewer, s: Statement, column: string) {
    if ResolvesItself(v, s, column)
    then exists f :: HandedBack(s, f) && Unseen(v, f) && ComesOut(v, f, column)
    else exists f :: ReadBelow(s, f) && Unseen(v, f) && ComesOut(v, f, column)
  }

  // One the viewer may not see is handed back and comes out nowhere, or may come
  // out of a subquery at a position nothing accounts for.
  ghost predicate Refuses(v: Viewer, s: Statement, columns: seq<string>) {
    || (exists f :: HandedBack(s, f) && Unseen(v, f) && forall p :: 0 <= p < |columns| ==> !ComesOut(v, f, columns[p]))
    || ((exists p :: 0 <= p < |columns| && !ResolvesItself(v, s, columns[p]) && !ResolvesBelow(v, s, columns[p])) &&
        exists f :: ReadBelow(s, f) && Unseen(v, f) &&
          forall p :: 0 <= p < |columns| && ComesOut(v, f, columns[p]) ==> ResolvesItself(v, s, columns[p]))
  }

  ghost predicate MaskedEverywhere(v: Viewer, f: Field, columns: seq<string>, positions: seq<nat>) {
    && (exists p :: 0 <= p < |columns| && ComesOut(v, f, columns[p]))
    && (forall p :: 0 <= p < |columns| && ComesOut(v, f, columns[p]) ==> p in positions)
  }

  // Whatever comes back to the caller and must not be seen comes out at some
  // position and is masked at every one.
  lemma HandedBackIsMasked(v: Viewer, s: Statement, columns: seq<string>, positions: seq<nat>, f: Field)
    requires !Refuses(v, s, columns)
    requires forall p :: p in positions <==> 0 <= p < |columns| && ComesOutHidden(v, s, columns[p])
    requires HandedBack(s, f) && Unseen(v, f)
    ensures MaskedEverywhere(v, f, columns, positions)
  {
    forall p | 0 <= p < |columns| && ComesOut(v, f, columns[p]) ensures p in positions {
      assert ResolvesItself(v, s, columns[p]);
    }
  }

  lemma {:induction false} AlsoIs(also: seq<Statement>, f: Field)
    ensures f in AlsoReturned(also) <==> exists a :: a in also && a.op.Select? && f in a.fields
  {
    if also != [] {
      AlsoIs(also[1..], f);
      assert also == [also[0]] + also[1..];
      assert forall a :: a in also <==> a == also[0] || a in also[1..];
    }
  }

  lemma ReturnedIs(s: Statement, f: Field)
    ensures f in ReturnedFields(s) <==> HandedBack(s, f)
  {
    AlsoIs(s.also, f);
  }

  lemma {:induction false} NestedReadIs(s: Statement, f: Field)
    ensures f in NestedReadFields(s) <==> ReadBelow(s, f)
    decreases s, 1
  {
    NestedReadAmong(s.subqueries, f);
  }

  lemma {:induction false} NestedReadAmong(ss: seq<Statement>, f: Field)
    ensures f in NestedReadIn(ss) <==> exists q :: q in ss && !q.filter && (f in q.fields || ReadBelow(q, f))
    decreases ss, 0
  {
    if ss != [] {
      var q := ss[0];
      assert q in ss;
      NestedReadIs(q, f);
      NestedReadAmong(ss[1..], f);
      assert ss == [q] + ss[1..];
      assert forall x :: x in ss <==> x == q || x in ss[1..];
    }
  }

  lemma HiddenIs(v: Viewer, f: Field, column: string)
    ensures v.Hidden(f) <==> Unseen(v, f)
    ensures v.Matches(f, column) <==> ComesOut(v, f, column)
  {
  }

  lemma ResolvesExactly(v: Viewer, s: Statement, column: string)
    ensures v.Resolves(ReturnedFields(s), column) <==> ResolvesItself(v, s, column)
    ensures v.Resolves(NestedReadFields(s), column) <==> ResolvesBelow(v, s, column)
  {
    forall f ensures f in ReturnedFields(s) <==> HandedBack(s, f) { ReturnedIs(s, f); }
    forall f ensures f in NestedReadFields(s) <==> ReadBelow(s, f) { NestedReadIs(s, f); }
    forall f ensures v.Matches(f, column) <==> ComesOut(v, f, column) { HiddenIs(v, f, column); }
  }

  lemma HiddenExactly(v: Viewer, s: Statement, column: string)
    ensures v.Masked(ReturnedFields(s), NestedReadFields(s), column) <==> ComesOutHidden(v, s, column)
  {
    ResolvesExactly(v, s, column);
    HidesExactly(v, s, column);
  }

  lemma HidesExactly(v: Viewer, s: Statement, column: string)
    ensures v.Hides(ReturnedFields(s), column) <==>
              exists f :: HandedBack(s, f) && Unseen(v, f) && ComesOut(v, f, column)
    ensures v.Hides(NestedReadFields(s), column) <==>
              exists f :: ReadBelow(s, f) && Unseen(v, f) && ComesOut(v, f, column)
  {
    forall f ensures f in ReturnedFields(s) <==> HandedBack(s, f) { ReturnedIs(s, f); }
    forall f ensures f in NestedReadFields(s) <==> ReadBelow(s, f) { NestedReadIs(s, f); }
    forall f ensures (v.Matches(f, column) <==> ComesOut(v, f, column)) && (v.Hidden(f) <==> Unseen(v, f)) {
      HiddenIs(v, f, column);
    }
  }

  // What is refused, in terms of the statement.
  lemma RefusesExactly(v: Viewer, s: Statement, columns: seq<string>)
    ensures v.Maskable(ReturnedFields(s), NestedReadFields(s), columns) <==> !Refuses(v, s, columns)
  {
    OwnReached(v, s, columns);
    BelowReached(v, s, columns);
    AccountedExactly(v, s, columns);
  }

  lemma OwnReached(v: Viewer, s: Statement, columns: seq<string>)
    ensures (forall f :: f in ReturnedFields(s) && v.Hidden(f) ==> v.Reached(f, columns)) <==>
              !(exists f :: HandedBack(s, f) && Unseen(v, f) &&
                            forall p :: 0 <= p < |columns| ==> !ComesOut(v, f, columns[p]))
  {
    forall f ensures f in ReturnedFields(s) <==> HandedBack(s, f) { ReturnedIs(s, f); }
    forall f ensures v.Hidden(f) <==> Unseen(v, f) { HiddenIs(v, f, ""); }
    forall f ensures v.Reached(f, columns) <==> exists p :: 0 <= p < |columns| && ComesOut(v, f, columns[p]) {
      forall p | 0 <= p < |columns| ensures v.Matches(f, columns[p]) <==> ComesOut(v, f, columns[p]) {
        HiddenIs(v, f, columns[p]);
      }
    }
  }

  lemma BelowReached(v: Viewer, s: Statement, columns: seq<string>)
    ensures (forall f :: f in NestedReadFields(s) && v.Hidden(f) ==> v.ReachedBelow(ReturnedFields(s), f, columns)) <==>
              !(exists f :: ReadBelow(s, f) && Unseen(v, f) &&
                  forall p :: 0 <= p < |columns| && ComesOut(v, f, columns[p]) ==> ResolvesItself(v, s, columns[p]))
  {
    forall f ensures f in NestedReadFields(s) <==> ReadBelow(s, f) { NestedReadIs(s, f); }
    forall f ensures v.Hidden(f) <==> Unseen(v, f) { HiddenIs(v, f, ""); }
    forall p | 0 <= p < |columns|
      ensures v.Resolves(ReturnedFields(s), columns[p]) <==> ResolvesItself(v, s, columns[p])
    {
      ResolvesExactly(v, s, columns[p]);
    }
    forall f ensures v.ReachedBelow(ReturnedFields(s), f, columns) <==>
                       exists p :: 0 <= p < |columns| && ComesOut(v, f, columns[p]) && !ResolvesItself(v, s, columns[p])
    {
      forall p | 0 <= p < |columns| ensures v.Matches(f, columns[p]) <==> ComesOut(v, f, columns[p]) {
        HiddenIs(v, f, columns[p]);
      }
    }
  }

  lemma AccountedExactly(v: Viewer, s: Statement, columns: seq<string>)
    ensures v.Accounted(ReturnedFields(s), NestedReadFields(s), columns) <==>
              !(exists p :: 0 <= p < |columns| && !ResolvesItself(v, s, columns[p]) && !ResolvesBelow(v, s, columns[p]))
  {
    forall p | 0 <= p < |columns|
      ensures v.Resolves(ReturnedFields(s), columns[p]) <==> ResolvesItself(v, s, columns[p])
      ensures v.Resolves(NestedReadFields(s), columns[p]) <==> ResolvesBelow(v, s, columns[p])
    {
      ResolvesExactly(v, s, columns[p]);
    }
  }

  // None means the statement is refused; otherwise the positions to mask.
  method EvaluateSee(s: Statement, columns: seq<string>, v: Viewer) returns (r: Option<seq<nat>>)
    ensures var own, nested := ReturnedFields(s), NestedReadFields(s);
            if !IsManaged(v.idx, v.ds) || !ReturnsRows(s.op) || columns == [] then r == Some([])
            else (r.Some? <==> v.Maskable(own, nested, columns)) && (r.Some? ==> v.Masks(r.value, own, nested, columns))
    ensures if !IsManaged(v.idx, v.ds) || s.op.Transaction? || s.op.Other? || columns == [] then r == Some([])
            else
              && (r.None? <==> Refuses(v, s, columns))
              && (r.Some? ==>
                    && (forall i, j :: 0 <= i < j < |r.value| ==> r.value[i] < r.value[j])
                    && (forall p :: p in r.value <==> 0 <= p < |columns| && ComesOutHidden(v, s, columns[p])))
  {
    if !IsManaged(v.idx, v.ds) || !ReturnsRows(s.op) || |columns| == 0 {
      return Some([]);
    }
    var own, nested := ReturnedFields(s), NestedReadFields(s);
    var matched := new bool[|own| + |nested|](_ => false);
    var accounted, positions: seq<nat> := true, [];
    for i := 0 to |columns|
      invariant Scanned(v, own, nested, columns[..i], matched[..], accounted, positions)
    {
      ghost var marked, known, masked := matched[..], accounted, positions;
      var resolved, deny := SeePosition(own, nested, columns[i], matched, v);
      if !resolved {
        accounted := false;
      }
      if deny {
        positions := positions + [i];
      }
      ScannedMore(v, own, nested, columns, i, marked, known, masked, matched[..], accounted, positions);
    }
    assert columns[..|columns|] == columns;
    var refused := Unmaskable(own, nested, columns, matched[..], accounted, positions, v);
    RefusesExactly(v, s, columns);
    forall p | 0 <= p < |columns| ensures ComesOutHidden(v, s, columns[p]) <==> v.Masked(own, nested, columns[p]) {
      HiddenExactly(v, s, columns[p]);
    }
    r := if refused then None else Some(positions);
  }

  lemma TestsByChain(statements: seq<Statement>, v: Viewer)
    ensures (forall s, f :: s in statements && f in PredicateFields(s, false) ==> !v.Hidden(f)) <==>
              forall chain, f :: Subqueries(chain) && chain[0] in statements && TestsAtEnd(chain, false, f) ==>
                !Unseen(v, f)
  {
    forall f ensures v.Hidden(f) <==> Unseen(v, f) { HiddenIs(v, f, ""); }
    forall s, f | s in statements
      ensures f in PredicateFields(s, false) <==>
                exists chain :: Subqueries(chain) && chain[0] == s && TestsAtEnd(chain, false, f)
    {
      TestedByChain(s, false, f);
    }
  }

  method CheckSeePredicates(statements: seq<Statement>, v: Viewer) returns (ok: bool)
    ensures ok <==> (IsManaged(v.idx, v.ds) ==>
                       forall s, f :: s in statements && f in PredicateFields(s, false) ==> !v.Hidden(f))
    ensures ok <==> (IsManaged(v.idx, v.ds) ==>
                       forall chain, f :: Subqueries(chain) && chain[0] in statements && TestsAtEnd(chain, false, f) ==>
                         !Unseen(v, f))
  {
    TestsByChain(statements, v);
    if !IsManaged(v.idx, v.ds) {
      return true;
    }
    for i := 0 to |statements|
      invariant forall j, f :: 0 <= j < i && f in PredicateFields(statements[j], false) ==> !v.Hidden(f)
    {
      var refused := HasSeeDenied(PredicateFields(statements[i], false), [], v);
      if refused {
        assert statements[i] in statements;
        return false;
      }
    }
    ok := true;
  }

  // ---- No column falls between the two checks ----

  // f is returned or tested somewhere in the tree of subqueries.
  ghost predicate InTree(s: Statement, f: Field) {
    f in s.fields || f in s.where || exists i :: 0 <= i < |s.subqueries| && InTree(s.subqueries[i], f)
  }

  lemma {:induction false} NestedReadMember(ss: seq<Statement>, i: nat, f: Field)
    requires i < |ss| && !ss[i].filter && (f in ss[i].fields || f in NestedReadFields(ss[i]))
    ensures f in NestedReadIn(ss)
  {
    if i > 0 {
      NestedReadMember(ss[1..], i - 1, f);
    }
  }

  lemma {:induction false} PredicateMember(ss: seq<Statement>, i: nat, tested: bool, f: Field)
    requires i < |ss| && f in PredicateFields(ss[i], tested || ss[i].filter)
    ensures f in PredicateIn(ss, tested)
  {
    if i > 0 {
      PredicateMember(ss[1..], i - 1, tested, f);
    }
  }

  // Once a statement's rows are tested, everything in its tree is.
  lemma {:induction false} TestedWhole(s: Statement, f: Field)
    requires InTree(s, f)
    ensures f in PredicateFields(s, true)
  {
    if i :| 0 <= i < |s.subqueries| && InTree(s.subqueries[i], f) {
      TestedWhole(s.subqueries[i], f);
      PredicateMember(s.subqueries, i, true, f);
    }
  }

  // Every field of the tree is the statement's own, or one a subquery can
  // return, or one it tests.
  lemma {:induction false} EveryFieldIsSeen(s: Statement, tested: bool, f: Field)
    requires InTree(s, f)
    ensures f in s.fields || f in NestedReadFields(s) || f in PredicateFields(s, tested)
  {
    if f !in s.fields && f !in s.where {
      var i :| 0 <= i < |s.subqueries| && InTree(s.subqueries[i], f);
      var sub, below := s.subqueries[i], tested || IsWrite(s.op);
      if sub.filter {
        TestedWhole(sub, f);
        PredicateMember(s.subqueries, i, below, f);
      } else {
        EveryFieldIsSeen(sub, below, f);
        if f in PredicateFields(sub, below) {
          PredicateMember(s.subqueries, i, below, f);
        } else {
          NestedReadMember(s.subqueries, i, f);
        }
      }
    }
  }

  // A chain of subqueries, each of the one before.
  ghost predicate Subqueries(chain: seq<Statement>) {
    chain != [] && forall i :: 0 < i < |chain| ==> chain[i] in chain[i - 1].subqueries
  }

  predicate Stores(op: Operation) {
    op.Insert? || op.Update? || op.Delete?
  }

  // The last statement of the chain tests f: in its own condition, or as a
  // result that a filter or a write on the way compares or stores.
  ghost predicate TestsAtEnd(chain: seq<Statement>, tested: bool, f: Field)
    requires chain != []
  {
    var last := chain[|chain| - 1];
    f in last.where ||
    (f in last.fields && (tested || exists i :: 0 < i < |chain| && KeptFromRows(chain, i)))
  }

  // The rows of this subquery are compared with something, or stored.
  ghost predicate KeptFromRows(chain: seq<Statement>, i: nat)
    requires 0 < i < |chain|
  {
    chain[i].filter || Stores(chain[i - 1].op)
  }

  // What a statement tests is exactly what its subqueries test at some depth.
  lemma TestedByChain(s: Statement, tested: bool, f: Field)
    ensures f in PredicateFields(s, tested) <==>
              exists chain :: Subqueries(chain) && chain[0] == s && TestsAtEnd(chain, tested, f)
  {
    if f in PredicateFields(s, tested) {
      var chain := TestedChain(s, tested, f);
    }
    forall chain | Subqueries(chain) && chain[0] == s && TestsAtEnd(chain, tested, f)
      ensures f in PredicateFields(s, tested)
    {
      ChainTests(chain, tested, f);
    }
  }

  lemma {:induction false} TestedChain(s: Statement, tested: bool, f: Field) returns (chain: seq<Statement>)
    requires f in PredicateFields(s, tested)
    ensures Subqueries(chain) && chain[0] == s && TestsAtEnd(chain, tested, f)
    decreases s, 1
  {
    if f in s.where || (tested && f in s.fields) {
      chain := [s];
    } else {
      var below := tested || IsWrite(s.op);
      var rest := TestedAmong(s.subqueries, below, f);
      chain := [s] + rest;
      SubqueryChain(s, rest);
      TestsFurther(s, rest, tested, f);
    }
  }

  lemma TestsFurther(s: Statement, rest: seq<Statement>, tested: bool, f: Field)
    requires rest != [] && TestsAtEnd(rest, tested || IsWrite(s.op) || rest[0].filter, f)
    ensures TestsAtEnd([s] + rest, tested, f)
  {
    var chain := [s] + rest;
    assert chain[|chain| - 1] == rest[|rest| - 1];
    if i :| 0 < i < |rest| && KeptFromRows(rest, i) {
      assert KeptFromRows(chain, i + 1);
    }
    if IsWrite(s.op) || rest[0].filter {
      assert KeptFromRows(chain, 1);
    }
  }

  lemma SubqueryChain(s: Statement, rest: seq<Statement>)
    requires Subqueries(rest) && rest[0] in s.subqueries
    ensures Subqueries([s] + rest) && ([s] + rest)[|rest|] == rest[|rest| - 1]
  {
    var chain := [s] + rest;
    forall i | 0 < i < |chain| ensures chain[i] in chain[i - 1].subqueries {
      if i > 1 { assert chain[i] == rest[i - 1] && chain[i - 1] == rest[i - 1 - 1]; }
    }
  }

  lemma {:induction false} TestedAmong(ss: seq<Statement>, tested: bool, f: Field) returns (chain: seq<Statement>)
    requires f in PredicateIn(ss, tested)
    ensures Subqueries(chain) && chain[0] in ss && TestsAtEnd(chain, tested || chain[0].filter, f)
    decreases ss, 0
  {
    if f in PredicateFields(ss[0], tested || ss[0].filter) {
      chain := TestedChain(ss[0], tested || ss[0].filter, f);
    } else {
      chain := TestedAmong(ss[1..], tested, f);
    }
  }

  lemma {:induction false} ChainTests(chain: seq<Statement>, tested: bool, f: Field)
    requires Subqueries(chain) && TestsAtEnd(chain, tested, f)
    ensures f in PredicateFields(chain[0], tested)
  {
    if |chain| > 1 {
      var s, rest := chain[0], chain[1..];
      var below := tested || IsWrite(s.op);
      assert forall i :: 0 < i < |rest| ==> rest[i] == chain[i + 1] && rest[i - 1] == chain[i];
      assert rest[|rest| - 1] == chain[|chain| - 1];
      if i :| 0 < i < |chain| && KeptFromRows(chain, i) {
        if i > 1 { assert KeptFromRows(rest, i - 1); }
      }
      ChainTests(rest, below || rest[0].filter, f);
      assert chain[1] in s.subqueries;
      var k :| 0 <= k < |s.subqueries| && s.subqueries[k] == rest[0];
      PredicateMember(s.subqueries, k, below, f);
    }
  }

  // When both checks pass, a hidden column read anywhere in the tree is tested
  // nowhere, and is masked at every position it can come out under: all of them
  // if it is the statement's own, and those the statement's own fields do not
  // answer for if it is nested. One that comes out nowhere is the statement's own
  // never, and a nested one only if every position resolved to a table.
  lemma HiddenColumnsStayHidden(v: Viewer, s: Statement, columns: seq<string>, positions: seq<nat>, f: Field)
    requires forall g :: g in PredicateFields(s, false) ==> !v.Hidden(g)
    requires v.Maskable(ReturnedFields(s), NestedReadFields(s), columns)
    requires v.Masks(positions, ReturnedFields(s), NestedReadFields(s), columns)
    requires (InTree(s, f) || f in ReturnedFields(s)) && v.Hidden(f)
    ensures var own, nested := ReturnedFields(s), NestedReadFields(s);
            && (f in own || f in nested)
            && (f in own ==>
                  && v.Reached(f, columns)
                  && (forall p :: 0 <= p < |columns| && v.Matches(f, columns[p]) ==> p in positions))
            && (f in nested ==>
                  && (forall p :: 0 <= p < |columns| && v.Matches(f, columns[p]) ==>
                      p in positions || v.Resolves(own, columns[p]))
                  && (v.ReachedBelow(own, f, columns) || v.Accounted(own, nested, columns)))
  {
    if f !in ReturnedFields(s) {
      EveryFieldIsSeen(s, false, f);
    }
  }
}
