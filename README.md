# Tree shaking for Metro bundles, modelled in Dafny

This project models the dead-code-elimination pass of `metro-tree-shaking`.
The pass runs over Metro's output graph: a map from absolute path to module.
Each module carries:
- an export table (`importee`) that counts how often the rest of the graph
  references its default export, its `export *` forwarding and each named
  export;
- the names it declares itself (`namedExports`);
- its dependency edges, each holding the target path and a snapshot of what
  that edge uses;
- the export statements of its syntax tree.

The pass has four steps:

1. `collectExports` credits each edge's usage to the edge's target. `export *`
   usage is forwarded only for names that the importer does not declare and
   the target does.
2. `removeUnUsedExports` removes the export statements and specifiers that
   nobody uses. Removing a forwarding specifier lowers the target's counts
   and may drop the edge.
3. The sweep is a FIFO worklist. It deletes modules whose table is exhausted
   (`wasNoReferences`), subtracts each deleted module's edge snapshots from
   the targets, and enqueues targets that become exhausted.
4. A last pass drops the edges that point at deleted modules.

Layout:
- `utils.dfy` (module `Utils`): `hasOwnProperty`, `intersection` and
  `difference`. Both loops are methods proved equal to pure definitions.
- `exports.dfy` (module `ExportTables`): the export table, `wasNoReferences`,
  and how one edge raises a table (collect) or lowers it (sweep).
- `model.dfy` (module `Modules`): modules, edges, export statements, edge
  lookup and deletion by source.
- `collect.dfy`, `prune.dfy`, `sweep.dfy` (modules `Collect`, `Prune`,
  `Sweep`): the specification of each step as functions over
  `map<string, Module>`, with their lemmas.
- `treeshaking.dfy` (module `TreeShaking`): class `Graph`. Its methods update
  `modules` in place, as the source updates `graph.dependencies`. Each method
  is proved equal to its specification function.

The order of `graph.dependencies` matters: later modules see the counts that
earlier ones changed. The class therefore keeps the insertion order as
`order`. The following are inputs:
- Babel's binding reference counts (`bindings`);
- the answer of the `ImportDefaultSpecifier` scope search
  (`defaultImportFound`);
- the configured `treeShakingPathIgnore` (`pathIgnore`);
- the regeneration of a module's output (`regenerate`).

A JavaScript `TypeError` ends the pass. It is modelled as a failed outcome:
`Throw`, `SpecifierThrew`, `ItemThrew`, `None`, `ok == false`. The cases are
a missing binding, a source missing from the copied dependency map, and a
missing `exports[localName]`.

## Model

| member | source | states |
|---|---|---|
| Utils.Intersection | packages/metro-tree-shaking/src/utils.js:8-16 | The loop returns the elements of `setB` that occur in `setA`, in `setB`'s order. |
| Utils.IntersectMembers | packages/metro-tree-shaking/src/utils.js:8-16 | `x` is in the intersection iff it is in both inputs. |
| Utils.IntersectCount | packages/metro-tree-shaking/src/utils.js:9-15 | Duplicates of `setB` are kept: each element occurs as often as in `setB` when `setA` has it, and not at all otherwise. |
| Utils.IntersectLength | packages/metro-tree-shaking/src/utils.js:9-15 | The intersection is no longer than `setB`, and it is empty when either input is empty. |
| Utils.IntersectConcat | packages/metro-tree-shaking/src/utils.js:10-14 | The intersection with a concatenation is the concatenation of the intersections. |
| Utils.Difference | packages/metro-tree-shaking/src/utils.js:18-23 | The loop returns the distinct elements of `setA` in order of first occurrence, minus every element of `setB`. |
| Utils.DifferenceMembers | packages/metro-tree-shaking/src/utils.js:18-23 | `x` is in the difference iff `x` is in `setA` and not in `setB`. |
| Utils.DifferenceNoDuplicates | packages/metro-tree-shaking/src/utils.js:19-23 | The difference lists no element twice. |
| Utils.DistinctFirstOccurrence | packages/metro-tree-shaking/src/utils.js:19 | Definition of `Set` insertion order, restated one element at a time: a repeated element changes nothing, and a new one goes to the end. |
| Utils.DistinctInOrder | packages/metro-tree-shaking/src/utils.js:19 | The set built from `setA` lists its elements in order of first occurrence. If one element comes before another in the set, its first position in `setA` is lower. |
| Utils.DistinctMembers | packages/metro-tree-shaking/src/utils.js:19 | The set built from `setA` holds exactly `setA`'s elements. |
| Utils.WithoutMembers | packages/metro-tree-shaking/src/utils.js:20-22 | Deleting the elements of `setB` leaves exactly the elements outside `setB`. |
| Utils.WithoutTwice | packages/metro-tree-shaking/src/utils.js:20-22 | Deleting one more element equals deleting the enlarged set at once. |
| ExportTables.ExhaustedExactly | packages/metro-tree-shaking/src/index.js:17-24 | `wasNoReferences` holds iff the default count is at most 0, the `export *` count is at most 0 and every named count is at most 0. Negative counts count as exhausted. |
| ExportTables.Increment | packages/metro-tree-shaking/src/index.js:48-54 | The `forEach` raises each walked name by the number of times it is walked. An absent name starts at 1. |
| ExportTables.BumpOne | packages/metro-tree-shaking/src/index.js:49-53 | One turn of the walk (`references++` on an own key, `{references: 1}` otherwise) is the walk over that single name. |
| ExportTables.BumpedTwice | packages/metro-tree-shaking/src/index.js:48-72 | Walking one list of names and then another equals walking both at once, so the two `forEach` loops of an edge compose. |
| ExportTables.BumpedOwnKeys | packages/metro-tree-shaking/src/utils.js:4-6 | After the walk, `hasOwnProperty` holds exactly for the keys the table had and the names walked. An own key holds its old count, or 0 if it was new, plus the times it was walked. |
| ExportTables.Credit | packages/metro-tree-shaking/src/index.js:40-74 | One edge adds the snapshot's default count. Each named key of the snapshot is raised by exactly 1, not by its count. The `export *` count and the forwarded names change only when `Forwards` holds. |
| ExportTables.CreditTable | packages/metro-tree-shaking/src/index.js:46-73 | The per-edge statements compute `Credit` of the target's table. |
| ExportTables.ForwardsExactly | packages/metro-tree-shaking/src/index.js:56-61 | `export *` usage is forwarded iff the snapshot's `exportAll` count is non-zero and some forwarded name is declared by the target. |
| ExportTables.Deduct | packages/metro-tree-shaking/src/index.js:353-358 | Each key the target already owns loses the snapshot's count. No key is added. |
| ExportTables.Debit | packages/metro-tree-shaking/src/index.js:350-358 | Definition, with its contract restating it per key (the properties are in `ExportTables.DebitLowers` and `ExportTables.CreditThenDebit`): a deleted importer takes away the snapshot's default and `export *` counts and, for keys the target has, its named counts. The key set is unchanged. |
| ExportTables.DebitKeepsExhausted | packages/metro-tree-shaking/src/index.js:350-359 | Debiting a non-negative snapshot never revives an exhausted table. |
| ExportTables.CreditThenDebit | packages/metro-tree-shaking/src/index.js:46-73 | Collect followed by the sweep for the same edge restores the default count. Each named key of the snapshot ends `1 - count` away, and `export *` is restored only when collect forwarded it. |
| ExportTables.CreditThenDebitExact | packages/metro-tree-shaking/src/index.js:46-54 | The round trip is exact for an edge that counts each named import once, has no `exportAll` count and only names keys the target has. |
| ExportTables.DebitLowers | packages/metro-tree-shaking/src/index.js:350-358 | A non-negative debit lowers every count and keeps the keys. |
| ExportTables.LoweredKeepsExhausted | packages/metro-tree-shaking/src/index.js:17-24 | A table that only went down stays exhausted. |
| Modules.Forwarded | packages/metro-tree-shaking/src/index.js:37-39 | Definition, with its contract restating it per name (the loop in `Modules.ForwardedNames` is proved to compute it): the forwarded names are exactly the export-table keys that the module does not declare. |
| Modules.ForwardedNames | packages/metro-tree-shaking/src/index.js:95-97 | The filter over `Object.keys` yields exactly the forwarded names, each once. |
| Modules.Lookup | packages/metro-tree-shaking/src/index.js:235 | `dependencies.get(source)` is absent iff no edge has that source. Otherwise it is the first edge with that source. |
| Modules.DeleteSource | packages/metro-tree-shaking/src/index.js:252 | `dependencies.delete(source)` keeps exactly the edges with another source. |
| Collect.AfterEdgeSkipsAbsent | packages/metro-tree-shaking/src/index.js:42-45 | An edge whose target is not in the graph changes nothing. Otherwise the edge changes only its target's export table. |
| Collect.AfterEdgesSkips | packages/metro-tree-shaking/src/index.js:40-54 | Edges that do not point at a module leave that module as it was. |
| Collect.AfterEdgesTablesOnly | packages/metro-tree-shaking/src/index.js:40-75 | One module's edges change export tables only, and no table loses a key. |
| Collect.CollectChangesTablesOnly | packages/metro-tree-shaking/src/index.js:31-77 | `collectExports` keeps every module and changes nothing but export tables: not edges, statements, names or output. No table loses a key. |
| Collect.CollectSkipsUnimported | packages/metro-tree-shaking/src/index.js:36-76 | A module that no edge imports leaves `collectExports` with the table it had. |
| Collect.AfterEdgesGrows | packages/metro-tree-shaking/src/index.js:40-75 | With non-negative snapshots, one module's edges only raise counts. |
| Collect.CollectOnlyRaises | packages/metro-tree-shaking/src/index.js:31-77 | With non-negative snapshots, `collectExports` only raises counts. |
| Prune.BindingVerdict | packages/metro-tree-shaking/src/index.js:110-114 | A declaration is dropped iff its name has no export entry and its binding has exactly 1 reference. It throws iff the name has neither an entry nor a binding. An exported name is kept. |
| Prune.FindIndex | packages/metro-tree-shaking/src/index.js:133 | `indexs.findIndex(i => i === index)` is the first position holding `index`, or -1 iff there is none. |
| Prune.SpliceOut | packages/metro-tree-shaking/src/index.js:157-170 | Removing the node at the found position and splicing `indexs` removes the item originally at `index`. Afterwards `live` still holds the original items at the remaining positions. |
| Prune.PendingDrop | packages/metro-tree-shaking/src/index.js:133-135 | In the loop over original positions, the entry for the current position sits right after the kept ones. Splicing it out gives the next loop state. |
| Prune.Advance | packages/metro-tree-shaking/src/index.js:124-146 | One turn of the loop over original positions keeps the loop invariant `Walked`: kept positions first, then the unvisited ones, with `live` matching them. |
| Prune.WalkedDone | packages/metro-tree-shaking/src/index.js:124-146 | When every position has been visited, the live nodes are exactly the survivors, in order. |
| Prune.SurvivorsLength | packages/metro-tree-shaking/src/index.js:140-142 | Nothing is lost when every item is kept, and the list gets shorter when one is not. |
| Prune.SurvivorsNone | packages/metro-tree-shaking/src/index.js:140-142 | The list ends empty iff no item is kept. |
| Prune.SurvivorsShrink | packages/metro-tree-shaking/src/index.js:124-146 | Removal never adds an item: the survivors are a sub-multiset of the original. |
| Prune.ResolvableExactly | packages/metro-tree-shaking/src/index.js:125-131 | A declarator is decided without a TypeError iff it is a pattern, its name is exported, or Babel has a binding for it. |
| Prune.PruneDeclarators | packages/metro-tree-shaking/src/index.js:121-146 | The declarator loop succeeds iff every declarator resolves. It then leaves exactly the surviving declarators, in order. |
| Prune.ReferencedDeclaratorSurvives | packages/metro-tree-shaking/src/index.js:128-131 | A declarator whose name another module references is never removed. |
| Prune.LocalSpecifierAsWritten | packages/metro-tree-shaking/src/index.js:174-175 | Definition of the code as written, with its contract restating it (the discrepancy is proved in `Prune.AliasedLocalExportThrows`): as written, the lookup reads the binding of the exported name. It throws iff that name has no binding. |
| Prune.LocalSpecifier | packages/metro-tree-shaking/src/index.js:173-231 | Definition of the corrected lookup, with its contract restating it (its agreement with the code is proved in `Prune.LocalSpecifierUnaliased`): the corrected lookup reads the binding of the local name. It throws iff that name has no binding, and otherwise removes the specifier. |
| Prune.AliasedLocalExportThrows | packages/metro-tree-shaking/src/index.js:174-175 | For `export { a as b }` with a binding for `a` only, the lookup as written throws and the corrected one removes the specifier. |
| Prune.LocalSpecifierUnaliased | packages/metro-tree-shaking/src/index.js:174-175 | Without an alias, the two lookups agree. |
| Prune.SpecifierAction | packages/metro-tree-shaking/src/index.js:148-268 | An exported name is retained. A source-less specifier is removed iff its local name has a binding. A default forward is removed only when the exported name is not `default` or the module's default count is 0. A named forward is removed only when the target has the key. The action throws iff a lookup fails: no binding for a source-less specifier, no copied edge for the source, or no target entry for a named forward. |
| Prune.ForwardToMissingTargetRetained | packages/metro-tree-shaking/src/index.js:235-239 | A forward to a module no longer in the graph is left alone. |
| Prune.NamedForwardRule | packages/metro-tree-shaking/src/index.js:264-266 | A named forward to a module in the graph is removed, lowering that entry by 1, iff the target has an entry for the local name. Otherwise it throws. |
| Prune.DefaultForwardRule | packages/metro-tree-shaking/src/index.js:241-248 | When the target exists, a `default` forward is removed iff the exported name is not `default` or the module's own default count is 0. |
| Prune.ApplyAction | packages/metro-tree-shaking/src/index.js:230-267 | Acting on a specifier keeps every module. Retaining or removing a local specifier changes no module. |
| Prune.DropDefaultForward | packages/metro-tree-shaking/src/index.js:248-262 | The target's default count goes down by 1. The edge for `source` goes iff the target is then exhausted. The interop-helper edge goes iff no `ImportDefaultSpecifier` was found. Nothing else changes. |
| Prune.DropNamedForward | packages/metro-tree-shaking/src/index.js:265-266 | Definition, with its contract restating the new state (the rule is proved in `Prune.NamedForwardRule`): the target's count for the local name goes down by exactly 1. Nothing else changes. |
| Prune.ApplyActionFrame | packages/metro-tree-shaking/src/index.js:241-267 | A specifier changes only counts, and none of them rises. Only the module's own edges are deleted. |
| Prune.DropDefaultForwardFrame | packages/metro-tree-shaking/src/index.js:248-262 | Dropping a default forward keeps that frame. |
| Prune.DropNamedForwardFrame | packages/metro-tree-shaking/src/index.js:265-266 | Dropping a named forward keeps that frame. |
| Prune.SpecifiersWalk | packages/metro-tree-shaking/src/index.js:148-270 | The walk over one statement's specifiers keeps every module and decides one flag per specifier. |
| Prune.StepItem | packages/metro-tree-shaking/src/index.js:101-284 | One export statement leaves at most one statement and keeps every module. |
| Prune.ItemsWalk | packages/metro-tree-shaking/src/index.js:286 | The traversal of a module's statements keeps every module of the graph. |
| Prune.Pruned | packages/metro-tree-shaking/src/index.js:92-293 | One module's iteration keeps every module of the graph, or it throws. |
| Prune.PrunedAll | packages/metro-tree-shaking/src/index.js:88-294 | The pass over all modules keeps every module of the graph, or it throws. |
| Prune.DeclarationRule | packages/metro-tree-shaking/src/index.js:104-118 | `export class` or `export function` throws iff the name has neither an export entry nor a binding. It goes iff the name is unexported and has exactly 1 reference. No count changes. |
| Prune.DefaultExportRule | packages/metro-tree-shaking/src/index.js:272-278 | `export default` goes iff the module's default count is 0. |
| Prune.ExportAllRule | packages/metro-tree-shaking/src/index.js:279-284 | `export *` goes iff the module forwards no names. |
| Prune.VarDeclRule | packages/metro-tree-shaking/src/index.js:121-146 | `export var` throws iff a declarator does not resolve. It is removed iff it had declarators and lost them all. Otherwise it keeps its survivors in order. |
| Prune.SpecifiersRule | packages/metro-tree-shaking/src/index.js:148-170 | `export { ... }` is removed iff it had specifiers and lost them all. Otherwise it keeps its surviving specifiers in order. |
| Prune.TrimmedRule | packages/metro-tree-shaking/src/index.js:140-142 | A statement whose list lost every entry is removed. A statement that lost some is rebuilt from the rest. |
| Prune.TrimmedBySurvivors | packages/metro-tree-shaking/src/index.js:136-142 | The statement is unchanged when all entries survive, removed when none does, and rebuilt otherwise. |
| Prune.StepChangedExactly | packages/metro-tree-shaking/src/index.js:115-116 | A statement sets `changed` iff the visitor altered or removed it. |
| Prune.ChangedExactly | packages/metro-tree-shaking/src/index.js:92-94 | `traverseState.changed` ends true iff the module's statements changed. The walk never adds a statement. |
| Prune.PrunedFrame | packages/metro-tree-shaking/src/index.js:88-294 | Pruning one module lowers counts only. It removes only that module's edges and rewrites only its statements and output. |
| Prune.PrunedAllFrame | packages/metro-tree-shaking/src/index.js:88-294 | The whole pruning pass raises no count and adds no key. It leaves the edges, statements and output of every module it did not visit untouched. Ignored modules are not visited. |
| Prune.SpecifiersThrewStays | packages/metro-tree-shaking/src/index.js:152-269 | Once a specifier throws, the whole statement throws. |
| Prune.ItemsThrewStays | packages/metro-tree-shaking/src/index.js:286 | Once a statement throws, the traversal throws. |
| Prune.PrunedAllNoneStays | packages/metro-tree-shaking/src/index.js:88-294 | A TypeError in one module rejects the whole pass. |
| Sweep.DebitEdgesEffect | packages/metro-tree-shaking/src/index.js:343-358 | Debiting a deleted module's edges keeps every module and changes only tables. Each table loses exactly the snapshots of the edges that point at it. |
| Sweep.RemoveAllKeys | packages/metro-tree-shaking/src/index.js:336-366 | Deleting modules leaves exactly the other modules, changed in their tables only. |
| Sweep.RemoveAllSurvivor | packages/metro-tree-shaking/src/index.js:336-366 | A module the sweep keeps ends with its table debited by the snapshot of every edge a deleted module had to it. |
| Sweep.SweepLowers | packages/metro-tree-shaking/src/index.js:350-359 | With non-negative snapshots, the sweep only lowers the counts of the modules it keeps. It never revives an exhausted one. |
| Sweep.DebitEdgesLowers | packages/metro-tree-shaking/src/index.js:343-358 | Debiting non-negative snapshots lowers every table. |
| Sweep.EnqueueAllExactly | packages/metro-tree-shaking/src/index.js:343-364 | After a deleted module's edges, a path is queued iff it was queued before or some edge to it left it in the graph with no references right after that edge's debit. |
| Sweep.EnqueueAllGrows | packages/metro-tree-shaking/src/index.js:359-364 | The edges only append to the queue, and a duplicate-free queue stays duplicate-free. |
| Sweep.ExhaustedByStep | packages/metro-tree-shaking/src/index.js:359-364 | A path is exhausted by a run of edges iff the run without its last edge exhausts it, or the last edge points at it and leaves it with no references. |
| TreeShaking.OccursExactly | packages/metro-tree-shaking/src/index.js:312 | The substring search finds `word` iff it occurs somewhere in the path. |
| TreeShaking.LiveDeps | packages/metro-tree-shaking/src/index.js:370-374 | An edge is kept iff its target is still in the graph. |
| TreeShaking.CleanedExactly | packages/metro-tree-shaking/src/index.js:368-375 | After cleanup no edge dangles. Only edges change, and an edge stays iff its target is in the graph. |
| TreeShaking.CleanedKeepsClean | packages/metro-tree-shaking/src/index.js:368-375 | Cleanup changes nothing in a graph without dangling edges. |
| TreeShaking.CleanedIdempotent | packages/metro-tree-shaking/src/index.js:368-375 | Running cleanup twice equals running it once. |
| TreeShaking.Graph.IgnoreExactly | packages/metro-tree-shaking/src/index.js:308-316 | Entry points and paths containing `babel` or `react-native/` are ignored. Any other path is ignored iff `treeShakingPathIgnore` says so. |
| TreeShaking.Graph.CollectExports | packages/metro-tree-shaking/src/index.js:31-77 | The nested loops leave the graph equal to `Collect.AfterAll` over the insertion order. |
| TreeShaking.Graph.CollectModule | packages/metro-tree-shaking/src/index.js:37-75 | One module's iteration equals `Collect.AfterModule`: its forwarded names are read once, before its edges are credited. |
| TreeShaking.Graph.CreditEdge | packages/metro-tree-shaking/src/index.js:40-74 | One edge equals `Collect.AfterEdge`. |
| TreeShaking.Graph.StepSpecifier | packages/metro-tree-shaking/src/index.js:152-268 | One specifier decides `Prune.SpecifierAction` and applies it to the graph, unless it throws. |
| TreeShaking.Graph.ApplySpecifier | packages/metro-tree-shaking/src/index.js:241-267 | The count updates and edge deletions equal `Prune.ApplyAction`. |
| TreeShaking.Graph.DeleteDependency | packages/metro-tree-shaking/src/index.js:252 | `module.dependencies.delete(source)` equals `Prune.DropEdges`. |
| TreeShaking.Graph.PruneSpecifiers | packages/metro-tree-shaking/src/index.js:148-270 | The specifier loop throws iff `Prune.SpecifiersWalk` does. Otherwise it leaves that walk's graph and the surviving specifiers. |
| TreeShaking.Graph.PruneItem | packages/metro-tree-shaking/src/index.js:101-284 | The visitor on one statement matches `Prune.StepItem`, including whether it throws. |
| TreeShaking.Graph.PruneModule | packages/metro-tree-shaking/src/index.js:92-293 | One module's iteration matches `Prune.Pruned`, including whether it throws. |
| TreeShaking.Graph.Unignored | packages/metro-tree-shaking/src/index.js:88-91 | The pruner visits exactly the modules that are not ignored, in order. |
| TreeShaking.Graph.RemoveUnusedExports | packages/metro-tree-shaking/src/index.js:79-295 | The pass succeeds iff `Prune.PrunedAll` over the non-ignored modules does. It then leaves that graph. |
| TreeShaking.Graph.SeedQueue | packages/metro-tree-shaking/src/index.js:323-334 | The queue starts with exactly the non-ignored modules that are exhausted, each once. |
| TreeShaking.Graph.DebitTarget | packages/metro-tree-shaking/src/index.js:345-364 | One edge of a deleted module equals `Sweep.DebitEdge`. The new queue is exactly `Sweep.Enqueue`: the target is appended iff it is still in the graph, has no references left after the debit and is not already queued. The queue stays duplicate-free. With a non-negative snapshot, only exhausted targets are added. |
| TreeShaking.Graph.DebitTargets | packages/metro-tree-shaking/src/index.js:343-365 | A deleted module's edges equal `Sweep.DebitEdges`, and the new queue is exactly `Sweep.EnqueueAll` of those edges. Every module that became exhausted is queued. |
| TreeShaking.Graph.DeleteModule | packages/metro-tree-shaking/src/index.js:342-365 | Deleting one dequeued module equals `Sweep.Remove`, and the new queue is exactly `Sweep.RemoveQueue`. The module leaves the graph and the insertion order. |
| TreeShaking.Graph.RemoveDeadModules | packages/metro-tree-shaking/src/index.js:336-366 | The sweep terminates and leaves `Sweep.RemoveAll` of the modules it deleted. Each was deleted once, none was ignored, and no surviving non-ignored module is exhausted. With non-negative snapshots and an exhausted seed, each was exhausted when deleted. |
| TreeShaking.Graph.LiveEdges | packages/metro-tree-shaking/src/index.js:370-374 | The inner loop keeps exactly the edges whose target is in the graph. |
| TreeShaking.Graph.CleanModule | packages/metro-tree-shaking/src/index.js:370-374 | One module's cleanup leaves only its live edges. |
| TreeShaking.Graph.CleanupEdges | packages/metro-tree-shaking/src/index.js:368-375 | The cleanup loop leaves `Cleaned` of the graph: no edge dangles. |
| TreeShaking.Graph.TreeShaking | packages/metro-tree-shaking/src/index.js:297-380 | The whole pass runs collect, prune, sweep and cleanup. On success no edge dangles, ignored modules and entry points survive, and no surviving non-ignored module is exhausted. With non-negative snapshots every deleted module was exhausted when deleted. |

## Left out

- The import-unwinding branch at packages/metro-tree-shaking/src/index.js:176-229 is not modelled. This is the part that removes the import of a removed local export and debits the imported module. Its walk over a live Babel specifier array, `parentPath` and node removal belong to Babel. A source-less specifier is removed after the binding lookup, and the edges and counts it would touch are left as they are.
- The `path.scope.path.find(isImportDefaultSpecifier)` search is a per-module input, `defaultImportFound`, because it queries Babel's scope tree.
- Babel's binding reference counts are the input map `bindings`. `path.scope.bindings` is taken to be present, because the model has no scope without bindings.
- `transform` (regenerating a changed module's output) is the input function `regenerate`. It re-runs Babel, the minifier and the bytecode compiler, which are foreign code.
- `async`/`await` and the `console` progress output are left out. They do not change the graph.
- `treeShakingPathIgnore` is the input predicate `pathIgnore`. The regular expression test is modelled as a substring search for `babel` and `react-native/`.
- Node removal in the syntax tree is modelled as rebuilding the statement from its surviving children. Source positions and comments are not modelled.
- Modules are values in a map, not shared objects. Nothing in the pass aliases one module from two paths.
- The export tables' `Object.keys` order is not modelled: those walks take keys as a set or multiset. The walks commute, so the result does not depend on the order.
- A module's dependencies are a sequence in insertion order, and `delete(source)` removes every edge with that source. In a JavaScript `Map` that is the single entry for the key.
- The graph a `TypeError` leaves half-updated is not modelled. The failed outcome carries no graph.
- JavaScript's prototype chain, `NaN`, `undefined` counts and floating-point numbers are not modelled. Counts are unbounded integers.
- The sweep's `module.dependencies.delete(source)` at packages/metro-tree-shaking/src/index.js:360 is not modelled. It acts on a module already removed from the graph, so nothing reads it afterwards.
- The sweep's `do … while` is modelled as a `while` loop. With an empty queue, the source's single extra turn finds no module and changes nothing.
- Prune.SpecifierAction: a source-less `export { a as b }` uses the corrected binding lookup `Prune.LocalSpecifier` (see Findings), not the one written at packages/metro-tree-shaking/src/index.js:175. For an aliased specifier whose exported name has no binding, the source throws a `TypeError`. `Prune.SpecifierAction`, `TreeShaking.Graph.RemoveUnusedExports` and `TreeShaking.Graph.TreeShaking` instead remove the specifier and go on. The lookup as written is `Prune.LocalSpecifierAsWritten`.
- TreeShaking.Graph.RemoveDeadModules: the guarantee that each deleted module was exhausted when deleted is stated only when every edge snapshot is non-negative and every seeded module is exhausted. A negative snapshot can raise a count in the source.

## Findings

| source | as written | input that shows it | evidently intended | confidence | as-written member | corrected member |
|---|---|---|---|---|---|---|
| packages/metro-tree-shaking/src/index.js:175 | The binding looked up for a source-less `export { local as exported }` is `bindings[exportedName]`. For an aliased export the module has no binding by that name, and reading `.path` of `undefined` throws a `TypeError`. | `export { a as b }` in a module that declares `a`, with no reference to `b` (bindings `{a: 1}`, no export entry `b`) | Look up `bindings[localName]`, the name the module declares or imports. | not executed | Prune.LocalSpecifierAsWritten (shown by Prune.AliasedLocalExportThrows) | Prune.LocalSpecifier |
