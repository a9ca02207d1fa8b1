/**
 * The specification of `collectExports` (packages/metro-tree-shaking/src/index.js):
 * one forward pass over the graph in its insertion order, which pushes each
 * edge's usage into the export table of the edge's target. The imperative
 * pass in TreeShaking.Graph.CollectExports is proved equal to `AfterAll`.
 */
module Collect {
  import opened Utils
  import opened ExportTables
  import opened Modules

  /** The graph after one edge of an importer whose forwarded names are
      `forwarded`: unchanged when the target is not in the graph. */
  function AfterEdge(ms: map<string, Module>, forwarded: set<string>, e: Dependency): map<string, Module>
  {
    if e.target !in ms then ms
    else
      var t := ms[e.target];
      ms[e.target := t.(table := Credit(t.table, t.namedExports, forwarded, e.snap))]
  }

  /** The graph after the edges `es`, taken in order. */
  function AfterEdges(ms: map<string, Module>, forwarded: set<string>, es: seq<Dependency>): map<string, Module>
  {
    if es == [] then ms
    else AfterEdge(AfterEdges(ms, forwarded, es[..|es| - 1]), forwarded, es[|es| - 1])
  }

  /** The graph after the iteration for module `p`: its forwarded names are
      read once, before any of its edges is credited. */
  function AfterModule(ms: map<string, Module>, p: string): map<string, Module>
  {
    if p !in ms then ms else AfterEdges(ms, Forwarded(ms[p]), ms[p].deps)
  }

  /** The graph after the modules `ps`, taken in order. */
  function AfterAll(ms: map<string, Module>, ps: seq<string>): map<string, Module>
  {
    if ps == [] then ms
    else AfterModule(AfterAll(ms, ps[..|ps| - 1]), ps[|ps| - 1])
  }

  /** `after` differs from `before` in export tables only, and no export
      table loses a key. */
  ghost predicate TablesOnly(before: map<string, Module>, after: map<string, Module>)
  {
    && after.Keys == before.Keys
    && forall p :: p in before ==>
         && after[p] == before[p].(table := after[p].table)
         && before[p].table.exports.Keys <= after[p].table.exports.Keys
  }

  lemma TablesOnlyTransitive(a: map<string, Module>, b: map<string, Module>, c: map<string, Module>)
    requires TablesOnly(a, b) && TablesOnly(b, c)
    ensures TablesOnly(a, c)
  {
  }

  lemma {:induction false} AfterEdgesTablesOnly(ms: map<string, Module>, forwarded: set<string>, es: seq<Dependency>)
    ensures TablesOnly(ms, AfterEdges(ms, forwarded, es))
  {
    if es != [] {
      var mid := AfterEdges(ms, forwarded, es[..|es| - 1]);
      AfterEdgesTablesOnly(ms, forwarded, es[..|es| - 1]);
      TablesOnlyTransitive(ms, mid, AfterEdge(mid, forwarded, es[|es| - 1]));
    }
  }

  /** collectExports changes export tables and nothing else: the graph keeps
      its modules, every module keeps its edges, syntax tree, declared names
      and output, and no export-table key is lost. */
  lemma {:induction false} CollectChangesTablesOnly(ms: map<string, Module>, ps: seq<string>)
    ensures TablesOnly(ms, AfterAll(ms, ps))
  {
    if ps != [] {
      var mid := AfterAll(ms, ps[..|ps| - 1]);
      CollectChangesTablesOnly(ms, ps[..|ps| - 1]);
      var p := ps[|ps| - 1];
      if p in mid {
        AfterEdgesTablesOnly(mid, Forwarded(mid[p]), mid[p].deps);
        TablesOnlyTransitive(ms, mid, AfterModule(mid, p));
      }
    }
  }

  /** No edge of any module of `ms` points at `t`. */
  ghost predicate Unimported(ms: map<string, Module>, t: string)
  {
    forall p, d :: p in ms && d in ms[p].deps ==> d.target != t
  }

  /** An edge whose target is not in the graph changes nothing, and one
      whose target is changes that target's table only. */
  lemma AfterEdgeSkipsAbsent(ms: map<string, Module>, forwarded: set<string>, e: Dependency)
    ensures e.target !in ms ==> AfterEdge(ms, forwarded, e) == ms
    ensures e.target in ms ==> TablesOnly(ms, AfterEdge(ms, forwarded, e))
    ensures forall q :: q in ms && q != e.target ==> AfterEdge(ms, forwarded, e)[q] == ms[q]
  {
  }

  /** Edges that do not point at `t` leave `t` as it was. */
  lemma {:induction false} AfterEdgesSkips(ms: map<string, Module>, forwarded: set<string>, es: seq<Dependency>, t: string)
    requires t in ms
    requires forall d :: d in es ==> d.target != t
    ensures t in AfterEdges(ms, forwarded, es) && AfterEdges(ms, forwarded, es)[t] == ms[t]
  {
    if es != [] {
      AfterEdgesSkips(ms, forwarded, es[..|es| - 1], t);
      assert es[|es| - 1] in es;
    }
  }

  /** A module that no edge imports leaves collectExports with the table it
      had: nothing is credited to it. */
  lemma {:induction false} CollectSkipsUnimported(ms: map<string, Module>, ps: seq<string>, t: string)
    requires t in ms && Unimported(ms, t)
    ensures t in AfterAll(ms, ps) && AfterAll(ms, ps)[t] == ms[t]
  {
    CollectChangesTablesOnly(ms, ps);
    if ps != [] {
      var mid := AfterAll(ms, ps[..|ps| - 1]);
      CollectSkipsUnimported(ms, ps[..|ps| - 1], t);
      CollectChangesTablesOnly(ms, ps[..|ps| - 1]);
      var p := ps[|ps| - 1];
      if p in mid {
        assert mid[p].deps == ms[p].deps;
        AfterEdgesSkips(mid, Forwarded(mid[p]), mid[p].deps, t);
      }
    }
  }

  /** Every edge snapshot of the graph has non-negative counts. */
  ghost predicate SnapshotsNonNegative(ms: map<string, Module>)
  {
    forall p, d :: p in ms && d in ms[p].deps ==> NonNegative(d.snap)
  }

  /** Every count of `after` is at least what it was in `before`. */
  ghost predicate CountsGrow(before: map<string, Module>, after: map<string, Module>)
    requires before.Keys <= after.Keys
  {
    forall p :: p in before ==>
      && after[p].table.def >= before[p].table.def
      && after[p].table.all >= before[p].table.all
      && forall name :: Count(after[p].table.exports, name) >= Count(before[p].table.exports, name)
  }

  lemma {:induction false} AfterEdgesGrows(ms: map<string, Module>, forwarded: set<string>, es: seq<Dependency>)
    requires forall d :: d in es ==> NonNegative(d.snap)
    ensures AfterEdges(ms, forwarded, es).Keys == ms.Keys
    ensures CountsGrow(ms, AfterEdges(ms, forwarded, es))
  {
    if es != [] {
      var init := es[..|es| - 1];
      LastSplit(es);
      assert forall d :: d in init ==> d in es;
      AfterEdgesGrows(ms, forwarded, init);
      var mid := AfterEdges(ms, forwarded, init);
      assert es[|es| - 1] in es;
      AfterEdgeGrows(mid, forwarded, es[|es| - 1]);
      CountsGrowTransitive(ms, mid, AfterEdges(ms, forwarded, es));
    }
  }

  /** Crediting one edge with a non-negative snapshot raises counts only. */
  lemma AfterEdgeGrows(ms: map<string, Module>, forwarded: set<string>, e: Dependency)
    requires NonNegative(e.snap)
    ensures AfterEdge(ms, forwarded, e).Keys == ms.Keys
    ensures CountsGrow(ms, AfterEdge(ms, forwarded, e))
  {
  }

  lemma CountsGrowTransitive(a: map<string, Module>, b: map<string, Module>, c: map<string, Module>)
    requires a.Keys <= b.Keys <= c.Keys
    requires CountsGrow(a, b) && CountsGrow(b, c)
    ensures CountsGrow(a, c)
  {
  }

  /** With non-negative snapshots, collectExports only ever raises counts. */
  lemma {:induction false} CollectOnlyRaises(ms: map<string, Module>, ps: seq<string>)
    requires SnapshotsNonNegative(ms)
    ensures AfterAll(ms, ps).Keys == ms.Keys
    ensures CountsGrow(ms, AfterAll(ms, ps))
  {
    CollectChangesTablesOnly(ms, ps);
    if ps != [] {
      var mid := AfterAll(ms, ps[..|ps| - 1]);
      CollectOnlyRaises(ms, ps[..|ps| - 1]);
      CollectChangesTablesOnly(ms, ps[..|ps| - 1]);
      var p := ps[|ps| - 1];
      if p in mid {
        assert mid[p].deps == ms[p].deps;
        AfterEdgesGrows(mid, Forwarded(mid[p]), mid[p].deps);
      }
    }
  }
}
