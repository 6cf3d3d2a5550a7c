# Verification of the cache, the permission checks and the text round trips

This project models the parts of the repository whose correctness is easiest to
lose in a small edit, and proves what they promise:

- the LRU and TTL cache with single-flight creation, once as a class over its
  map, expiry index and recency list, once as a transition system in which any
  number of threads interleave at every critical section;
- the statement-permission checks: compiled rules, the recursive checker, the
  masking of result columns, virtual tables, and the resolution of columns in
  enclosing statements;
- connection strings, search patterns inside SQL literals, qualified names and
  plan listings, each against the reader that undoes the printer;
- the grouping of database rows into schemas.

Loops that update variables are methods proved against a function of their
inputs; the properties are lemmas about those functions. `Store`, `Lookup` and
`Remove` in CacheModel.dfy are shared by the class, by the runs and by the
interleavings, so a theorem about one holds for the others.

The clock is an input of every cache operation and `OnDelete` is a log of the
pairs handed to it. `NormalizeIdentifier`, `strings.EqualFold`,
`strings.ToLower`, the pseudo-column test, the metadata's column lists and
`net.LookupPort` are parameters, and theorems hold for any of them. A refusal is
a boolean or `None`; a Go error or nil pointer is `None`.

## Files

| file | models |
|---|---|
| CacheModel.dfy, Cache.dfy, CacheRuns.dfy | one critical section, the class, whole runs |
| CacheProtocol.dfy | interleavings of GetOrCreate, Set, Get, Delete, DeleteFunc and the sweep |
| Statements.dfy, Permissions.dfy | inspected statements, compiled rules |
| StatementChecks.dfy, StatementRights.dfy | the checker, what it decides under a list of rules |
| StatementScoping.dfy, NestedScoping.dfy | what it asks for, and what scoping by nested reads adds |
| SeeChecks.dfy | masking of result columns and refusal of tested ones |
| VirtualTables.dfy, Resolver.dfy | declared names, correlated columns |
| Text.dfy, DsnTokens.dfy, DsnUrl.dfy, Dsn.dfy | PostgreSQL connection strings |
| DsnSpellings.dfy, UrlSpellings.dfy | every way to write one, and that exactly those are read |
| LikeLiterals.dfy, QualifiedNames.dfy | search patterns, identifiers |
| ExplainTree.dfy | MySQL plan listings |
| Collections.dfy, Ordering.dfy, SchemaRows.dfy, SchemaContents.dfy | filters and stable sorting, schema rows and what each schema holds |

## Where the code and its documentation disagree

The model follows the code. Each point has an input that shows it and says when,
exactly, the documentation is right.

- A permission entry without a datasource is documented as a wildcard. It covers
  what it would cover on a datasource it named exactly where the lookup itself
  is for no datasource (`UnnamedDatasourceCovers`); an allow naming nothing at
  all permits nothing on a named one (`UnnamedAllowPermitsNothing`). On a named
  datasource such an allow changes no decision (`UnnamedAllowChangesNothing`),
  and such a deny refuses only text nobody could read (`UnnamedDenyDecides`).
- Nested scoping is documented to demand nothing the statement did not need. A
  select scoped by what an unclassified statement below it tests of its own
  tables can ask for more (`UnclassifiedAsksMore`). No decision depends on it
  exactly when every such column is asked for by some statement on its own, or
  the tree holds text nobody could read or a row action on a table nobody
  resolved (`NestedScopingExactly`). The inspectors leave the tests of the
  statements they do not classify empty, so none of them builds that input; for
  such trees nothing extra is asked (`NestedScopingAsksNothingExtra`).
- `DropVirtualTables` is documented to work throughout the tree, but it does not
  enter the statements performed alongside (`DropsNotThroughout`). It leaves no
  declared table anywhere exactly when no statement performed alongside, at any
  depth, named one (`DropsThroughout`).
- Adding an allow entry refuses statements exactly when it is the first rule of
  a datasource that was not managed (`AllowKeepsAcceptance`).
- The PostgreSQL literal is documented as valid whether or not backslashes
  escape; where they do, it is read back exactly when it holds no backslash
  (`PostgreSQLWithEscapes`). The MySQL literal is documented as the same text in
  either mode; without backslash escapes it stands for the text with its
  backslashes doubled (`MySQLWithoutEscapes`).
- Removing the password of a key=value string can leave a string that reads as a
  URL with a password in it (`PasswordCanBeLeft`). A password is left exactly
  when the first token left looks like a URL and the text from its scheme to the
  first '/', '?' or '#' has a ':' and, past something, an '@' (`PasswordIsGone`).
- `ThroughVirtual` keeps what a result is called, unless that name is empty and
  the column behind it has one (`ThroughKeepsName`). Only a column returned under
  an empty quoted name gets there (`ThroughChangesEmptyName`).
- Views are documented to keep their columns as read. A table of the same schema
  and name shares them, so they do exactly when there is none or it has no keys
  among them (`ViewsKeepTheirColumns`, `ViewCanBeMarked`).

## Model

| member | source | states |
|---|---|---|
| Cache.Cache.constructor | toolkit/cache/cache.go:55-75 | a new cache is empty and well formed |
| Cache.Cache.LookupLocked | toolkit/cache/cache.go:77-95 | a hit moves the key to the front and restarts its lifetime, an expired entry is deleted and handed back, a miss changes nothing |
| Cache.Cache.Get | toolkit/cache/cache.go:77-96 | the hit is the value held within its lifetime, which comes to the front; an expired one leaves; map, expiry index and recency list stay in agreement and one pair at most is told |
| Cache.Cache.GetOrCreate | toolkit/cache/cache.go:98-157 | a key held within its lifetime is returned and comes to the front; otherwise, on a key being created the caller gets the call to wait for, and any other caller has what create made in front with a new lifetime, or the key absent if it failed; told are the expired value or the last of a full cache, and the key is released |
| Cache.Cache.Finish | toolkit/cache/cache.go:139-157 | a registered call is stored unless it failed, then released and closed with the outcome of create, panic included |
| Cache.Cache.Set | toolkit/cache/cache.go:159-186 | the key is in front with its value and a new lifetime; replacement, eviction of the last of the list when full, and exactly the pairs that left told to the listener, none for a rewrite of the same value |
| Cache.Cache.Delete | toolkit/cache/cache.go:188-198 | the key leaves all three structures and the listener hears of it once |
| Cache.Cache.DeleteFunc | toolkit/cache/cache.go:200-214 | exactly the keys fn accepts leave, in any order of the map, each told once |
| Cache.Cache.Gc | toolkit/cache/cache.go:286-304 | a key is gone if and only if it had a deadline earlier than the reading made for it, and each is told once |
| Cache.Cache.DeleteWhereLocked | toolkit/cache/cache.go:204-208 | the walk over a set of keys deletes those present and accepted and collects their pairs |
| Cache.Cache.MakeRoomLocked | toolkit/cache/cache.go:173-180 | a full cache loses its least recently used entry and only it, and then there is room |
| Cache.Cache.MarkUsedLocked | toolkit/cache/cache.go:222-229 | the key moves to the front with a new expiry, the rest keep their order |
| Cache.Cache.InsertLocked | toolkit/cache/cache.go:231-238 | a new entry goes in front of the others |
| Cache.Cache.ReplaceLocked | toolkit/cache/cache.go:240-247 | the value is swapped, the displaced one returned, the key counts as used |
| Cache.Cache.DeleteLocked | toolkit/cache/cache.go:249-258 | the key leaves all three structures together |
| Cache.Cache.NotifyDelete | toolkit/cache/cache.go:277-284 | one pair is told, if there is a listener |
| Cache.Cache.ToldCounts | toolkit/cache/cache.go:277-284 | with a listener each pair is told as often as it left, without one never |
| CacheModel.SectionKeepsShape | toolkit/cache/cache.go:159-186 | every critical section keeps the keys distinct and the size within the bound |
| CacheModel.SectionConserves | toolkit/cache/cache.go:36-41 | held before plus entered equals held after plus left, as multisets of pairs |
| CacheModel.LookupExactly | toolkit/cache/cache.go:77-96 | an absent key changes nothing, an expired entry leaves, any other is a hit that comes to the front with its lifetime restarted, the others in order |
| CacheModel.StoreExactly | toolkit/cache/cache.go:159-186 | the key is in front with its lifetime restarted; it displaces its own other value, or the last entry of a full list, or nothing |
| CacheModel.RemovalExactly | toolkit/cache/cache.go:188-214 | deleting keeps the other keys in order, deleting by a test those it refuses, and a sweep exactly the entries not past their deadline |
| CacheModel.CreatedIsKept | toolkit/cache/cache.go:98-157 | a value created for a key that is absent or expired is in front, and what leaves is the expired entry or the last of a full list |
| CacheModel.HeldIsReturned | toolkit/cache/cache.go:107-113 | a key within its lifetime is returned whatever create would make, and nothing leaves |
| CacheModel.FailedIsAbsent | toolkit/cache/cache.go:148-152 | a create that failed leaves the key absent and the others in order |
| CacheRuns.RunShape | toolkit/cache/cache.go:260-263 | over every run the size never exceeds MaxEntries |
| CacheRuns.CapacityInclusion | toolkit/cache/cache.go:159-275 | on the same trace the list of a cache with one more slot holds that of the smaller one, in order, plus at most one entry |
| CacheRuns.HitsGrowWithCapacity | toolkit/cache/cache.go:77-96 | after any run a hit is the same hit in every larger cache |
| CacheRuns.RecencyIsUse | toolkit/cache/cache.go:222-238 | over every run everything in front of a key was used after that key was |
| CacheRuns.OverflowVictim | toolkit/cache/cache.go:265-275 | an overflow deletes one key, and at least MaxEntries distinct other keys were used since its last use |
| CacheRuns.ExpiryDescends | toolkit/cache/cache.go:222-238 | with a clock that never goes back the expiries never increase from front to back |
| CacheRuns.VictimExpiresFirst | toolkit/cache/cache.go:173-180 | whenever any entry is expired the overflow victim is |
| CacheRuns.ResidentIsLastSet | toolkit/cache/cache.go:231-247 | every resident value is the last one set since the key was deleted, and expires a lifetime after its last use |
| CacheRuns.HitIsFresh | toolkit/cache/cache.go:77-96 | a hit returns the last value set and is within a lifetime of the last use |
| CacheRuns.UnboundedIsMap | toolkit/cache/cache.go:31-34 | with no bound and no lifetime a key is held exactly when it was set and not deleted since |
| CacheProtocol.StepKeepsInv | toolkit/cache/cache.go:98-157 | every step of any thread keeps the agreement between threads, calls and the creating map |
| CacheProtocol.ReachableInv | toolkit/cache/cache.go:98-157 | that agreement holds in every reachable state |
| CacheProtocol.OneCreatePerKey | toolkit/cache/cache.go:98-101 | in every interleaving at most one thread is between registering and releasing a key |
| CacheProtocol.RegisteredWhileHeld | toolkit/cache/cache.go:126-146 | a key is in the creating map exactly while one thread is between registering and releasing it |
| CacheProtocol.SharedOutcome | toolkit/cache/cache.go:117-123 | every waiter asked for the key of the call it shared and returns exactly what its create did: value, error or panic |
| CacheProtocol.CreateReturnsOnce | toolkit/cache/cache.go:148-156 | what the create of a call did is never rewritten |
| CacheProtocol.WaiterHasOwner | toolkit/cache/cache.go:117-123 | a waiter's call is closed or has a live owner |
| CacheProtocol.NoWaiterIsWedged | toolkit/cache/cache.go:139-146 | from every reachable state the waiter can be let go by steps of its own and of its call's owner alone |
| CacheProtocol.OnDeleteConserves | toolkit/cache/cache.go:36-41 | with a listener, pairs that entered equal resident plus removed and not yet told plus told, in every reachable state |
| CacheProtocol.NothingToldWithoutListener | toolkit/cache/cache.go:277-284 | without a listener nothing is owed or told in any interleaving |
| CacheProtocol.EnterExactly | toolkit/cache/cache.go:98-133 | entering hands back the value of an entry within its lifetime; an expired one leaves, and then the caller waits on the open call of the key or, without one, registers its own |
| CacheProtocol.CreatedGoesInFront | toolkit/cache/cache.go:148-156 | what the create of a call returned is put in front, under the key its caller asked for, with a new lifetime |
| CacheProtocol.AloneIsGetOrCreate | toolkit/cache/cache.go:98-157 | a caller nobody interleaves with leaves the cache, the creating map and the pairs told as one GetOrCreate does, and returns the value held or what its create did, error and panic included |
| Permissions.Compile | dialect/core/permissions.go:104-131 | the maps hold exactly the keys of the deny and allow entries and the datasources named, and what they allow is what some allow entry and no deny entry applies to |
| Permissions.Scan | dialect/core/permissions.go:170-186 | found exactly when some key covers the request under wildcards, and the role is that of such a key |
| Permissions.Decide | dialect/core/permissions.go:188-196 | allowed exactly when no deny key and some allow key covers the request |
| Permissions.CompiledDecides | dialect/core/permissions.go:104-196 | a right holds over the compiled maps exactly when the list of entries permits it |
| Permissions.AllowedByEntries | dialect/core/permissions.go:104-196 | a lookup is allowed if and only if some entry that is no deny applies to it and no deny does, an entry applying where each of its parts is the one asked for or a wildcard |
| Permissions.AnywhereByEntries | dialect/core/permissions.go:297-308 | a right on the whole connection needs an entry that allows the action on everything, and no entry that denies it on anything there |
| Permissions.ManagedByEntries | dialect/core/permissions.go:133-147 | a datasource is managed if and only if an entry names it, or everything unmanaged is denied |
| Permissions.AnywhereCovers | dialect/core/permissions.go:278-308 | a right held on the whole connection with no deny at any scope covers every object of it |
| StatementChecks.ScopeRead | dialect/core/permissions.go:244-261 | the loop with its early exits computes the scoped read |
| StatementChecks.NestedFieldsInto | dialect/core/permissions.go:404-418 | the accumulator recursion appends the columns nested statements name, in order |
| StatementChecks.ReachingOutInto | dialect/core/permissions.go:420-441 | the accumulator recursion appends the columns nested statements read from relations not their own |
| StatementChecks.CheckColumns | dialect/core/permissions.go:459-483 | passes exactly when every column of the table is allowed, and says whether any was named |
| StatementChecks.CheckTables | dialect/core/permissions.go:317-402 | accepts exactly when every right in the declared set of every table holds |
| StatementChecks.CheckUnreadable | dialect/core/permissions.go:278-295 | accepts exactly when manage and the four row rights hold on the connection with no deny anywhere |
| StatementChecks.CheckStatement | dialect/core/permissions.go:212-242 | accepts exactly when every right the whole tree needs holds, through scoped reads and both kinds of nested statement |
| StatementChecks.CheckQueryPermissions | dialect/core/permissions.go:198-210 | accepts exactly when the datasource is unmanaged or every statement's rights hold |
| StatementRights.CheckDecidesByList | dialect/core/permissions.go:104-242 | the compiled, early-exit check accepts exactly when the declared rights hold under plain list semantics |
| StatementRights.OrderIsIgnored | dialect/core/permissions.go:104-210 | acceptance depends on the sets of entries and statements only |
| StatementRights.DenyOnlyRefuses | dialect/core/permissions.go:188-196 | adding a deny entry never turns refusal into acceptance |
| StatementRights.AllowKeepsAcceptance | dialect/core/permissions.go:133-147 | adding an allow entry keeps every acceptance if and only if it does not make an unmanaged datasource managed |
| StatementRights.UnnamedDatasourceCovers | dialect/core/permissions.go:38-47 | an entry without a datasource covers what it would cover on a datasource it named if and only if the lookup is for no datasource |
| StatementRights.UnnamedAllowPermitsNothing | dialect/core/permissions.go:104-131 | an allow naming nothing permits nothing on a named datasource |
| StatementRights.UnnamedAllowChangesNothing | dialect/core/permissions.go:170-196 | adding an allow without a datasource changes no decision on a named one |
| StatementRights.UnnamedDenyRefusesAnywhere | dialect/core/permissions.go:297-308 | adding a deny without a datasource refuses on a named one only its action on the whole connection |
| StatementRights.UnnamedDenyDecides | dialect/core/permissions.go:278-308 | so it turns acceptance into refusal exactly for statements that need that right |
| StatementRights.FloorDominates | dialect/core/permissions.go:278-308 | a role for which an unreadable statement is accepted is accepted for a statement tree if and only if its row-action statements name only tables with a schema |
| StatementScoping.ReadsAreAllowed | dialect/core/permissions.go:198-441 | on acceptance every resolved column a statement reads at any depth, those a bare read takes from above included, that belongs to a table of its own or of any enclosing row-action statement is select-allowed |
| StatementScoping.BareReadIsAsked | dialect/core/permissions.go:229-261 | a read that names no column asks for every column the statement above it tests of its tables |
| StatementScoping.WritesAreAllowed | dialect/core/permissions.go:317-402 | on acceptance every table written at any depth is allowed per named column, or as a whole where none is named |
| StatementScoping.SelectedTablesAreAllowed | dialect/core/permissions.go:317-402 | on acceptance every table a select names is allowed on the columns it reads of it, or failing those on the columns nested reads name, or as a whole |
| StatementScoping.OperationsAreGranted | dialect/core/permissions.go:704-720 | on acceptance an insert, update or delete at any depth holds "insert", "update" or "delete" on what it writes, a select holds "select", and what nobody classified holds "manage" |
| StatementScoping.OwnRightsByOperation | dialect/core/permissions.go:317-402 | exactly the rights a readable statement asks for on its own, by operation: its own action on what it names of each table or on the whole table, select on what is tested, manage for the unclassified, nothing for a transaction |
| StatementScoping.UnreadableAsks | dialect/core/permissions.go:278-295 | exactly manage and the four row rights on the whole connection |
| StatementScoping.TakenExactly | dialect/core/permissions.go:244-261 | a bare read takes exactly the tested columns of its tables, any other statement keeps its tests, and nothing else of either changes |
| StatementScoping.NeedsByChain | dialect/core/permissions.go:212-242 | a tree needs a right if and only if some statement in it, scoped by those above, asks for it on its own |
| StatementScoping.NestedByChain | dialect/core/permissions.go:404-418 | what scopes a select from below is exactly what the statements nested in it at any depth name of their own |
| StatementScoping.ReachingByChain | dialect/core/permissions.go:420-441 | what reaches out of a statement is exactly the columns nested ones name of relations not their own |
| NestedScoping.NestedScopingAsksNothingExtra | dialect/core/permissions.go:391-418 | where unclassified statements carry no tests, checking with nested columns accepts the same as checking each statement on its own columns |
| NestedScoping.NamedIsAskedExactly | dialect/core/permissions.go:404-441 | a column a nested statement names is asked for by that statement, alone or with the whole connection, or handed up as correlated, exactly under a condition on the class of the statement and the relation of the column |
| NestedScoping.UnclassifiedAsksMore | dialect/core/permissions.go:404-418 | a tree on which nested scoping refuses what the statements on their own accept |
| NestedScoping.NeedsSettled | dialect/core/permissions.go:391-441 | every right the check asks for is asked for without nested scoping, or covered by what is, or asked for on account of an unclassified statement |
| NestedScoping.NestedScopingExactly | dialect/core/permissions.go:391-441 | for trees of named tables no decision, under any rules, depends on nested scoping if and only if every column it asks for on account of an unclassified statement is asked for on its own, or the tree holds unreadable text or an unresolved row-action table |
| SeeChecks.SeeColumn | dialect/core/permissions.go:569-595 | marks exactly the fields a result column can come out under, and says whether one resolved and whether one is hidden |
| SeeChecks.HasSeeDenied | dialect/core/permissions.go:597-623 | finds exactly an unmarked hidden field |
| SeeChecks.SeePosition | dialect/core/permissions.go:514-528 | own fields decide where they resolve the column, nested ones otherwise; one array is marked for both lists |
| SeeChecks.EvaluateSee | dialect/core/permissions.go:492-547 | refuses exactly the results in which a column the viewer may not see cannot be placed, by what the statement and its subqueries return, and otherwise masks exactly the positions that may carry one, increasing and in range |
| SeeChecks.CheckSeePredicates | dialect/core/permissions.go:631-641 | refuses exactly the managed statements with a chain of subqueries whose last tests a hidden column, the fields of filters and of what a write reads counting as tested |
| SeeChecks.EveryFieldIsSeen | dialect/core/permissions.go:643-682 | every field in the tree of subqueries is an own field, a returned nested field or a tested one |
| SeeChecks.HiddenColumnsStayHidden | dialect/core/permissions.go:485-547 | when both checks pass every hidden own column has a matching position and all of them are masked; a hidden nested one is masked or shadowed by a resolved own column, and may go unmatched only when every position resolved |
| SeeChecks.HandedBackIsMasked | dialect/core/permissions.go:549-561 | every column the viewer may not see that comes back from the statement, or from a read performed alongside as in a RETURNING clause, has a matching position and is masked at all of them |
| SeeChecks.RefusesExactly | dialect/core/permissions.go:492-547 | maskable means: every hidden column handed back has a position, and every hidden one from a subquery has one or every position is accounted for |
| SeeChecks.TestedByChain | dialect/core/permissions.go:643-682 | what a statement tests is exactly what its subqueries at some depth test, or return under a filter or a write |
| Collections.CompactInPlace | dialect/core/inspect.go:210-217 | writing the kept elements over the front of the slice being read equals the functional filter |
| VirtualTables.DropDeclaredTables | dialect/core/inspect.go:207-220 | the in-place compaction at every depth equals the recursive filter |
| VirtualTables.DropVirtualTables | dialect/core/inspect.go:196-205 | nothing declared changes nothing; otherwise the names are normalised and dropped |
| VirtualTables.UndeclaredMember | dialect/core/inspect.go:192-195 | a table goes exactly when it is written bare under a declared name |
| VirtualTables.DropVirtualTwice | dialect/core/inspect.go:187-220 | dropping A then B equals dropping the union |
| VirtualTables.DropsExactlyDeclared | dialect/core/inspect.go:187-220 | at every path of subqueries exactly the bare declared tables are gone and all else is as it was |
| VirtualTables.DropsThroughout | dialect/core/inspect.go:187-220 | no bare declared table is left anywhere in the tree if and only if no statement performed alongside held one |
| VirtualTables.DropsNotThroughout | dialect/core/inspect.go:187-220 | a delete that also reads a declared name still reads it afterwards |
| VirtualTables.CTESeesEarlier | dialect/core/inspect.go:237-253 | a body sees exactly the names declared before it, or all of them under RECURSIVE |
| VirtualTables.TablesNamedBy | dialect/core/inspect.go:116-129 | keeps, in order, the tables some field belongs to |
| VirtualTables.TablesExcept | dialect/core/utilities.go:718-731 | keeps, in order, the tables none of the kept ones names |
| VirtualTables.NamedExactly | dialect/core/inspect.go:116-129 | kept are the tables some field has the schema and name of, or in the other case those none has, in order |
| VirtualTables.SplitExactly | dialect/core/inspect.go:101-114 | a write keeps the tables its fields name and a bare select of the others joins those beside it; one whose fields name none, or all, reads nothing more |
| VirtualTables.SplitWrite | dialect/core/inspect.go:101-114 | written tables stay, the rest become a read beside the write, and a write naming no table is left alone |
| VirtualTables.SplitAsksPerColumn | dialect/core/inspect.go:101-129 | splitting keeps every table once, and each table still written is asked for per column |
| VirtualTables.SplitStillAsksForReads | dialect/core/inspect.go:92-114 | a table split off is asked for with select on every column of it the write tests, or as a whole where it tests none |
| VirtualTables.SplitAsksEveryTest | dialect/core/inspect.go:92-114 | every column a write tests of any of its tables, written or split off, is asked for with select |
| Resolver.ColumnIn | dialect/core/resolve.go:466-494 | the two nested scans return the column the first relation of that name holds |
| Resolver.ResolveEach | dialect/core/resolve.go:317-332 | the in-place retry equals the functional filter |
| Resolver.ResolveCorrelated | dialect/core/resolve.go:300-315 | the recursive rewrite equals its specification |
| Resolver.RetriedField | dialect/core/resolve.go:319-332 | a retried field becomes a column of the first relation of its prefix, or goes when that has no schema or is not there |
| Resolver.ResolvingSettles | dialect/core/resolve.go:300-332 | afterwards every field of the tree carries a schema, and a second pass in any scope changes nothing |
| Resolver.ResolvesInEnclosingScope | dialect/core/resolve.go:307-314 | at every depth the scope is that of exactly the enclosing statements, outermost first |
| Resolver.ResolvesByTables | dialect/core/resolve.go:286-332 | at every depth the fields and tests become exactly the columns of the first enclosing table, outermost first, whose alias, or name without one, is their prefix, under their own alias; those of no such table, or of one without a schema, are gone |
| Resolver.CorrelatedBelongsAbove | dialect/core/resolve.go:300-315 | every column the pass resolves belongs to a table of a statement that encloses the one naming it |
| Resolver.RewriteThroughVirtual | dialect/core/resolve.go:348-372 | the nested loops equal the field-by-field rewrite, in order |
| Resolver.ThroughKeepsName | dialect/core/resolve.go:361-367 | the rewritten field comes out under the same name, up to normalisation, exactly unless that name is empty and the first column returned under it has a name |
| Resolver.ThroughChangesEmptyName | dialect/core/resolve.go:355-369 | with PostgreSQL names, a field naming nothing comes out as a column returned under an empty quoted name |
| Resolver.ThroughIsFirstReturned | dialect/core/resolve.go:355-369 | it takes schema, table and name of the first column returned under the field's name, and is dropped exactly when there is none |
| Resolver.ThroughExactly | dialect/core/resolve.go:343-373 | the rewritten fields are those of undeclared relations as they were and, for the others, the first column returned under their name, called what it was called |
| Resolver.ThroughOnceIsEnough | dialect/core/resolve.go:334-373 | rewriting twice is rewriting once where no declared relation returns another's column |
| Resolver.VirtualFields | dialect/core/resolve.go:375-422 | the map gives each name the fields of the statement that answers for it: derived tables in the order first named, then CTEs by position unless qualified, later ones of a name first, and no other name |
| Resolver.DerivedInOrder | dialect/core/resolve.go:403-419 | the derived tables are paired in the order the statement first names them, each once |
| Resolver.DerivedAnswers | dialect/core/resolve.go:403-419 | a derived table returns what the statement at its place after those of the CTEs does, unless a later one is read alike |
| Resolver.CTEAnswers | dialect/core/resolve.go:380-396 | a CTE returns what the statement at its place does, unless a later one or a derived table is read alike, and nothing where the name was written with a schema |
| Resolver.OthersAreUndeclared | dialect/core/resolve.go:375-422 | no other name is read as declared |
| Resolver.QualifiedStaysReal | dialect/core/resolve.go:380-396 | a relation written with a schema is never read as a CTE |
| DsnTokens.ParseKV | dialect/postgresql/dsn.go:162-229 | the index loop tokenises as specified, refusing what it refuses |
| DsnTokens.ValueReads | dialect/postgresql/dsn.go:231-241 | every printed value, with quotes, backslashes or nothing in it, is read back whatever follows it |
| DsnTokens.RoundTrip | dialect/postgresql/dsn.go:162-249 | a printed token list parses to itself if and only if its keys hold no white space and no equals sign |
| DsnTokens.RewriteParses | dialect/postgresql/dsn.go:162-249 | printing what was parsed parses to the same tokens |
| DsnSpellings.SpellingsRead | dialect/postgresql/dsn.go:162-229 | tokens written with any white space, quoted or not, with any character of a value after a backslash, are read as what they stand for |
| DsnSpellings.ParsedIsSpelled | dialect/postgresql/dsn.go:162-229 | whatever the tokeniser accepts is written so |
| DsnSpellings.AcceptsExactlySpellings | dialect/postgresql/dsn.go:162-229 | a text is read as these tokens if and only if it is a way to write them |
| DsnSpellings.PrintedAsSpelled | dialect/postgresql/dsn.go:231-249 | tokens are printed in order with one space between, a value in quotes when it is empty or holds white space, a quote or a backslash, with a backslash before those two alone |
| DsnUrl.ParseURLDSN | dialect/postgresql/dsn.go:263-294 | the index scans split the URL as specified |
| DsnUrl.RebuildURL | dialect/postgresql/dsn.go:296-310 | the builder writes the parts in order |
| DsnUrl.RebuiltParses | dialect/postgresql/dsn.go:263-310 | well-formed parts are read back from the URL built of them |
| DsnUrl.ParsedRebuilds | dialect/postgresql/dsn.go:263-310 | parsed parts are well formed and rebuild to the trimmed URL |
| DsnUrl.UrlHoldsPassword | dialect/postgresql/dsn.go:263-294 | a URL gives a password if and only if its authority has a ':' and, past something, an '@' |
| DsnUrl.JoinReads | dialect/postgresql/dsn.go:312-328 | host and port joined, IPv6 in brackets, split back if and only if the host can be bracketed |
| DsnUrl.BracketedHostPort | dialect/postgresql/dsn.go:312-328 | an address in brackets reads as itself, with the port after the colon that follows or none |
| DsnUrl.PlainHostPort | dialect/postgresql/dsn.go:312-328 | without brackets the last colon parts host and port, and without a colon all of it is the host |
| UrlSpellings.UrlsRead | dialect/postgresql/dsn.go:263-294 | a URL written from a scheme, a login with or without password, a host and a rest is read as those, whatever white space is around it |
| UrlSpellings.AcceptsExactlyUrls | dialect/postgresql/dsn.go:263-310 | a text is read as these parts if and only if it can be written from them with nothing in it mistaken for the end of a part |
| UrlSpellings.NoSchemeIsRefused | dialect/postgresql/dsn.go:263-268 | refused are exactly the texts without "://" |
| UrlSpellings.UrlFormExactly | dialect/postgresql/dsn.go:149-152 | a string is taken for a URL if and only if, white space aside, it starts with postgres:// or postgresql:// |
| UrlSpellings.UrlPasswords | dialect/postgresql/dsn.go:81-147 | the password of a URL is read, replaced and taken out in its place and nothing else changes; a URL without one is left alone |
| UrlSpellings.UrlHosts | dialect/postgresql/dsn.go:47-57 | pointing a URL elsewhere replaces its host and port alone, an address with colons in brackets |
| Dsn.SetHost | dialect/postgresql/dsn.go:61-71 | the loop rewrites host and port tokens in place and reports which it saw |
| Dsn.WithHost | dialect/postgresql/dsn.go:47-79 | both forms are rewritten as specified, and what is neither is refused |
| Dsn.HostIsReadBack | dialect/postgresql/dsn.go:12-79 | the host and port set are read back, in a URL exactly when it can carry the host, and everything else is kept in order |
| Dsn.DialsWhatWasSet | dialect/postgresql/dsn.go:12-45 | through the defaults and the port lookup, what is dialled is what was set |
| Dsn.DialsWithoutPort | dialect/postgresql/dsn.go:12-45 | a URL that names no port is dialled at its host and the default port |
| Dsn.DialsHostAndPort | dialect/postgresql/dsn.go:12-45 | a URL that names both is dialled at both |
| Dsn.TokensRead | dialect/postgresql/dsn.go:12-45 | of tokens that repeat a key the last host and port are dialled, with the defaults for absent ones, and the first password is read |
| Dsn.HostTokensExactly | dialect/postgresql/dsn.go:58-79 | every host and port token is set where it stands and a missing one is added at the end, the host first |
| Dsn.PasswordTokensExactly | dialect/postgresql/dsn.go:108-147 | the first password token is set where it stands, or one is added at the end; without a password means without every token of that key |
| Dsn.PasswordIsReadBack | dialect/postgresql/dsn.go:81-123 | the password set is read back exactly when the string is of tokens, or a URL already carrying one and the new one holds no '/', '?' or '#' |
| Dsn.PasswordKeepsTheRest | dialect/postgresql/dsn.go:102-123 | setting a password changes nothing else |
| Dsn.PasswordIsGone | dialect/postgresql/dsn.go:125-147 | no password is left if and only if what is left is of the same form or its authority holds none; the form stays exactly when the first token left does not look like a URL |
| Dsn.PasswordCanBeLeft | dialect/postgresql/dsn.go:125-147 | a string whose form changes and that still gives a password |
| LikeLiterals.EscapesEachChar | dialect/core/foreign_key_lookup.go:112-119 | the three replacements in sequence are one map over the characters |
| LikeLiterals.PatternIsLiteral | dialect/core/foreign_key_lookup.go:82-92 | the escaped pattern matches exactly the texts that contain the search text |
| LikeLiterals.LoweredPatternIsLiteral | dialect/mysql/foreign_key_lookup.go:15-20 | so does the pattern lowered against a lowered text, for any lowering that leaves the three special characters alone |
| LikeLiterals.LiteralsReadBack | dialect/mysql/foreign_key_lookup.go:33-42 | each dialect's literal is read back by its own lexer up to its closing quote |
| LikeLiterals.MySQLWithoutEscapes | dialect/mysql/foreign_key_lookup.go:33-42 | without backslash escapes it reads as the text with backslashes doubled, so is the text if and only if it has none |
| LikeLiterals.PostgreSQLWithEscapes | dialect/postgresql/foreign_key_lookup.go:33-38 | with backslash escapes it is read back if and only if it holds no backslash |
| LikeLiterals.SearchThroughLiteral | dialect/core/foreign_key_lookup.go:82-92 | quoted, decoded and matched without case, as the dialects do, or with it, the pattern finds exactly the texts that contain the search text |
| LikeLiterals.UnescapeText | dialect/mysql/inspect.go:1227-1248 | the index walk decodes as specified |
| LikeLiterals.DecoderUndoesPrinter | dialect/mysql/inspect.go:1227-1248 | decoding the body of a printed literal gives the text back, for every text |
| LikeLiterals.PrintsExactly | dialect/core/foreign_key_lookup.go:112-119 | the escape character goes before itself, % and _; MySQL doubles quotes and backslashes, PostgreSQL quotes alone |
| LikeLiterals.DecodesExactly | dialect/mysql/inspect.go:1223-1248 | a body stands for a text if and only if it can be cut into doubled quotes, escapes and single characters that stand for it, six letters meaning control characters after a backslash |
| QualifiedNames.SplitQualifiedIdentifier | dialect/core/utilities.go:345-411 | the scan splits at the dots outside quotes, quotes kept |
| QualifiedNames.NormalizeQualifiedName | dialect/core/utilities.go:413-420 | each part is normalised |
| QualifiedNames.QuotesExactly | dialect/postgresql/dialect.go:184-214 | a name in lower case, of letters, digits and _ (MySQL $ too), starting with no digit and not reserved is left bare; any other is put in quotes with those inside doubled |
| QualifiedNames.NormalizesExactly | dialect/postgresql/dialect.go:177-182 | a quoted name is what is between its quotes, pairs of them read as one; anything else is lowered, PostgreSQL dropping single quotes around it |
| QualifiedNames.CaseExactly | dialect/mysql/dialect.go:137-142 | lowering and raising touch exactly the letters of the other case |
| QualifiedNames.SplitsExactly | dialect/core/utilities.go:345-400 | a name is split at exactly the dots with an even number of quotes before them; parts are trimmed and empty ones dropped |
| QualifiedNames.CanBeCut | dialect/core/utilities.go:345-400 | every text can be cut so |
| QualifiedNames.NamesRoundTrip | dialect/core/utilities.go:345-420 | ASCII names, quoted where needed, joined with dots and normalised, come back, in both dialects and whatever words are reserved |
| ExplainTree.LineRoundTrip | dialect/mysql/explain.go:63-70 | a printed line is read back if and only if its content is not empty and has no space around it |
| ExplainTree.ReadsExactly | dialect/mysql/explain.go:62-70 | a plan line is one with text after its first arrow, which stands at its indent; its content is that text, trimmed |
| ExplainTree.NoArrowNoLine | dialect/mysql/explain.go:62-67 | a line without an arrow is skipped |
| ExplainTree.ParentExactly | dialect/mysql/explain.go:74-82 | the parent of a line is the last one before it that is indented less |
| ExplainTree.KidsExactly | dialect/mysql/explain.go:77-82 | its children are, in order, the lines it is the parent of |
| ExplainTree.LastRootExactly | dialect/mysql/explain.go:77-79 | the root is the last line with none before it indented less |
| ExplainTree.Unwind | dialect/mysql/explain.go:74-76 | pops exactly the frames at or past the new indent |
| ExplainTree.TopIsParent | dialect/mysql/explain.go:74-82 | what is on top is the nearest earlier line indented less |
| ExplainTree.PushedIsOpen | dialect/mysql/explain.go:83 | the stack stays strictly increasing in indent and every other line is hidden behind it |
| ExplainTree.Attach | dialect/mysql/explain.go:77-82 | the node becomes the last child of its parent and nothing else changes |
| ExplainTree.Place | dialect/mysql/explain.go:71-83 | one more line keeps the children of every node those whose parent it is, the stack open and the root right |
| ExplainTree.Parse | dialect/mysql/explain.go:42-90 | every node's children are, in order, the lines it is the nearest shallower line of; ids count lines; the root is the last line nothing encloses, and there is none exactly without plan lines |
| ExplainTree.PlanRoundTrip | dialect/mysql/explain.go:42-90 | the preorder listing of any tree, indented more the deeper, gives that tree back numbered in preorder, with its root |
| ExplainTree.ParsedPlanMirrors | dialect/mysql/explain.go:42-90 | the nodes a parse makes of the printed listing of a tree, whose contents are trimmed and not empty, are that tree, from the root down |
| SchemaRows.NamesAreOrdered | dialect/core/schema_rows.go:215-219 | the name comparison is a total order that equates only identical names, whatever lower-casing does |
| SchemaContents.NamesExactly | dialect/core/schema_rows.go:215-219 | names are ordered character by character as lowered, and as written where those are the same |
| SchemaContents.RowsAreSorted | dialect/core/schema_rows.go:226-250 | every kind of row comes out in its documented order, ties as they were, nothing lost or added |
| SchemaRows.EnrichColumns | dialect/core/metadata.go:135-150 | each column in place gets its keys and keeps the rest |
| SchemaRows.GroupForeignKeys | dialect/core/schema_rows.go:278-285 | the nested map holds the last reference of each column of each table |
| SchemaRows.MarkTables | dialect/core/schema_rows.go:286-300 | columns shared by the relations of one name are marked with the keys once one of them is a table |
| SchemaRows.MarkColumns | dialect/core/metadata.go:135-150 | marking is by name and reference, and marking again changes nothing |
| SchemaRows.Spread | dialect/core/schema_rows.go:253-263 | every row goes, in order, to the last schema listed under its name, and rows of no listed schema go nowhere |
| SchemaRows.BuildRelations | dialect/core/schema_rows.go:286-300 | relations split into tables and views, in order, each with the columns its name shares |
| SchemaRows.ViewsKeepTheirColumns | dialect/core/schema_rows.go:224-225 | a view has its columns as read if and only if no table shares its name or that table has no keys among them |
| SchemaRows.ViewCanBeMarked | dialect/core/schema_rows.go:286-300 | a view and a table of one name whose view comes out keyed |
| SchemaRows.SchemaRows.Metadata | dialect/core/schema_rows.go:224-344 | the rows are sorted in place and grouped as specified |
| SchemaContents.SchemaExactly | dialect/core/schema_rows.go:252-344 | each schema holds its rows and no others: columns, keys and references of every table, shared columns of views, index columns without expressions, the last statistic of a name, settings of catalogs; of schemas with one name only the last holds any |
| SchemaContents.TableExactly | dialect/core/schema_rows.go:265-300 | a table has the columns of its rows, each primary key and reference as some row says, the last row about a column deciding |
| SchemaContents.ViewExactly | dialect/core/schema_rows.go:286-300 | a view has no key of its own, and its columns are keyed when a table has its schema and name |
| SchemaRows.RowOrderIsForgotten | dialect/core/schema_rows.go:215-344 | rows with distinct keys in their groups give the same schemas in whatever order they arrive |
| SchemaRows.RelationsAreListed | dialect/core/schema_rows.go:286-300 | every relation of a listed schema is there exactly once, as a table or as a view |
| SchemaRows.CatalogsComeLast | dialect/core/schema_rows.go:226-235 | no user schema follows a catalog |
| SchemaRows.SoleCatalogIsLast | dialect/sqlite/schema.go:73-75 | a sole catalog is the last schema and carries the settings |
| Ordering.GroupRows | dialect/core/schema_rows.go:265-277 | each key maps to its rows in order |
| Ordering.OrderForgotten | dialect/core/schema_rows.go:226-250 | what a filter keeps of stably sorted rows does not depend on their order when kept rows that tie are equal |

## Left out

- Cache.Cache.GetOrCreate: does not model blocking, so a caller that must wait is handed the call; CacheProtocol.dfy has any number of callers and their waking.
- ExplainTree.Parse: does not model splitting the text at line feeds, the costs and row counts of a line, or the error for a text without plan lines, which is a null root here.
- Resolver.VirtualFields: does not claim that the pairing is the one SQL scoping asks for, only that it is the one by position the code makes.
- The width of clock values (64 bits), the ticker of the sweep and the list elements inside cache items; the recency list is a sequence of keys.
- Panics of OnDelete, callbacks that call back into the cache and uncomparable values, which the cache's contract excludes.
- The order of map iteration, which is an arbitrary choice where it is visible and absent where it is not.
- Error texts, roles and source positions of a refusal.
- Slices shared between statements: a rewrite returns a new statement.
- White space outside ASCII in trimmed strings, and identifiers and texts outside ASCII where bytes and characters differ.
- Parsing of port numbers and service names, beyond their being a parameter.
- JSON decoding of rows, extra column attributes, the current schema, and the difference between a nil and an empty slice.
- The SQL text around the search pattern: column lists, ordering and limit.
- The rest of the resolver: unqualified columns, stars, select lists, schema lookup and table discovery.
- SQLite identifier quoting, which does not double embedded quotes and so has no round trip.
- The statement inspectors, completion, linting, drivers, dumps, server and frontend.
