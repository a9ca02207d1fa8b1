/**
 * The tree-shaking pass of packages/metro-tree-shaking/src/index.js as it
 * runs over Metro's output graph: `collectExports` credits every edge's usage
 * to its target, `removeUnUsedExports` prunes the export statements nobody
 * uses, the sweep in `treeShaking` deletes every module that no longer has a
 * reference and debits what it used from its targets, and a last pass drops
 * the edges that point at deleted modules.
 *
 * The graph is a `Graph` object whose `modules` map the methods update in
 * place, as `graph.dependencies` is updated in the source. Each method is
 * proved equal to the specification function of its module (Collect, Prune,
 * Sweep); the properties of those functions are proved there.
 */
module TreeShaking {
  import opened Utils
  import opened ExportTables
  import opened Modules
  import Collect
  import Prune
  import Sweep

  /** `word` occurs in `s` starting at position `i`. */
  predicate OccursAt(s: string, word: string, i: int)
  {
    0 <= i && i + |word| <= |s| && s[i..i + |word|] == word
  }

  /** `word` occurs somewhere in `s`. */
  function Occurs(s: string, word: string): bool
    decreases |s|
  {
    if |s| < |word| then false
    else s[..|word|] == word || Occurs(s[1..], word)
  }

  /** `Occurs` finds an occurrence exactly when there is one. */
  lemma {:induction false} OccursExactly(s: string, word: string)
    ensures Occurs(s, word) <==> exists i :: OccursAt(s, word, i)
    decreases |s|
  {
    if |s| < |word| {
      assert forall i :: !OccursAt(s, word, i);
    } else if s[..|word|] == word {
      assert OccursAt(s, word, 0);
    } else {
      OccursExactly(s[1..], word);
      if Occurs(s[1..], word) {
        var i :| OccursAt(s[1..], word, i);
        assert s[1..][i..i + |word|] == s[i + 1..i + 1 + |word|];
        assert OccursAt(s, word, i + 1);
      }
      if exists i :: OccursAt(s, word, i) {
        var i :| OccursAt(s, word, i);
        assert i > 0;
        assert s[1..][i - 1..i - 1 + |word|] == s[i..i + |word|];
        assert OccursAt(s[1..], word, i - 1);
      }
    }
  }

  /** Every edge of `ms` points at a module of `ms`. */
  ghost predicate NoDangling(ms: map<string, Module>)
  {
    forall q, d :: q in ms && d in ms[q].deps ==> d.target in ms
  }

  /** The edges of `deps` whose target is one of `live`, in order. */
  function LiveDeps(deps: seq<Dependency>, live: set<string>): (r: seq<Dependency>)
    ensures forall d :: d in r <==> d in deps && d.target in live
    ensures |r| <= |deps|
  {
    if deps == [] then []
    else LiveDeps(deps[..|deps| - 1], live) +
         (if deps[|deps| - 1].target in live then [deps[|deps| - 1]] else [])
  }

  /** The graph after the last loop of `treeShaking`: every module keeps only
      the edges whose target is still in the graph. */
  function Cleaned(ms: map<string, Module>): (r: map<string, Module>)
    ensures r.Keys == ms.Keys
  {
    map q | q in ms :: ms[q].(deps := LiveDeps(ms[q].deps, ms.Keys))
  }

  /** After the clean-up no edge dangles, only edges changed, and every edge
      to a module of the graph is still there. */
  lemma CleanedExactly(ms: map<string, Module>)
    ensures NoDangling(Cleaned(ms))
    ensures forall q :: q in ms ==> Cleaned(ms)[q] == ms[q].(deps := Cleaned(ms)[q].deps)
    ensures forall q, d :: q in ms ==> (d in Cleaned(ms)[q].deps <==> d in ms[q].deps && d.target in ms)
  {
  }

  /** Cleaning a graph whose edges all point inside it changes nothing. */
  lemma CleanedKeepsClean(ms: map<string, Module>)
    requires NoDangling(ms)
    ensures Cleaned(ms) == ms
  {
    forall q | q in ms
      ensures Cleaned(ms)[q] == ms[q]
    {
      LiveDepsAll(ms[q].deps, ms.Keys);
    }
  }

  /** `ms` is `start` with the modules of `done` cleaned and the others as
      they were. */
  ghost predicate CleanedUpTo(start: map<string, Module>, ms: map<string, Module>, done: seq<string>)
  {
    && ms.Keys == start.Keys
    && forall q :: q in ms ==> ms[q] == if q in done then Cleaned(start)[q] else start[q]
  }

  lemma CleanedUpToStep(start: map<string, Module>, ms: map<string, Module>, done: seq<string>, p: string)
    requires CleanedUpTo(start, ms, done) && p in ms && p !in done
    ensures ms[p] == start[p]
    ensures CleanedUpTo(start, ms[p := ms[p].(deps := LiveDeps(ms[p].deps, ms.Keys))], done + [p])
  {
    var ms' := ms[p := ms[p].(deps := LiveDeps(ms[p].deps, ms.Keys))];
    forall q | q in ms'
      ensures ms'[q] == if q in done + [p] then Cleaned(start)[q] else start[q]
    {
      assert (q in done + [p]) == (q in done || q == p);
    }
  }

  lemma CleanedUpToAll(start: map<string, Module>, ms: map<string, Module>, done: seq<string>)
    requires CleanedUpTo(start, ms, done) && Elements(done) == start.Keys
    ensures ms == Cleaned(start)
  {
  }

  /** So cleaning twice is cleaning once. */
  lemma CleanedIdempotent(ms: map<string, Module>)
    ensures Cleaned(Cleaned(ms)) == Cleaned(ms)
  {
    CleanedExactly(ms);
    CleanedKeepsClean(Cleaned(ms));
  }

  lemma {:induction false} LiveDepsAll(deps: seq<Dependency>, live: set<string>)
    requires forall d :: d in deps ==> d.target in live
    ensures LiveDeps(deps, live) == deps
  {
    if deps != [] {
      var init := deps[..|deps| - 1];
      LastSplit(deps);
      assert forall d :: d in init ==> d in deps;
      LiveDepsAll(init, live);
      assert deps[|deps| - 1] in deps;
    }
  }

  /** `graph`: the modules keyed by absolute path, their insertion order
      (the iteration order of `graph.dependencies`), the entry points, the
      `treeShakingPathIgnore` option of the transformer configuration, and
      the transformer call that regenerates a module's output from its
      remaining statements. */
  class Graph {
    var modules: map<string, Module>
    var order: seq<string>
    const entryPoints: seq<string>
    const pathIgnore: string -> bool
    const regenerate: (string, seq<ExportItem>) -> string

    /** The insertion order lists every module exactly once. */
    ghost predicate Valid()
      reads this
    {
      NoDuplicates(order) && Elements(order) == modules.Keys
    }

    constructor (modules: map<string, Module>, order: seq<string>, entryPoints: seq<string>,
                 pathIgnore: string -> bool, regenerate: (string, seq<ExportItem>) -> string)
      requires NoDuplicates(order) && Elements(order) == modules.Keys
      ensures Valid()
      ensures this.modules == modules && this.order == order && this.entryPoints == entryPoints
      ensures this.pathIgnore == pathIgnore && this.regenerate == regenerate
    {
      this.modules := modules;
      this.order := order;
      this.entryPoints := entryPoints;
      this.pathIgnore := pathIgnore;
      this.regenerate := regenerate;
    }

    /** `treeShakingIgnore`: Babel's helpers and React Native (paths matching
        `/(babel)|(react-native)\//`), the entry points, and whatever the
        configured `treeShakingPathIgnore` accepts are never pruned or
        deleted. */
    predicate Ignore(p: string)
    {
      Occurs(p, "babel") || Occurs(p, "react-native/") || p in entryPoints || pathIgnore(p)
    }

    /** Entry points, and paths that contain `babel` or `react-native/`,
        are ignored; any other path is ignored exactly when the configured
        option says so. */
    lemma IgnoreExactly(p: string)
      ensures p in entryPoints ==> Ignore(p)
      ensures (exists i :: OccursAt(p, "babel", i)) ==> Ignore(p)
      ensures (exists i :: OccursAt(p, "react-native/", i)) ==> Ignore(p)
      ensures (p !in entryPoints && !(exists i :: OccursAt(p, "babel", i)) &&
               !(exists i :: OccursAt(p, "react-native/", i))) ==> (Ignore(p) <==> pathIgnore(p))
    {
      OccursExactly(p, "babel");
      OccursExactly(p, "react-native/");
    }

    // -------------------------------------------------------------------
    // collectExports
    // -------------------------------------------------------------------

    /** `collectExports`: every module in insertion order. */
    method CollectExports()
      requires Valid()
      modifies this
      ensures Valid() && order == old(order)
      ensures modules == Collect.AfterAll(old(modules), order)
    {
      for i := 0 to |order|
        invariant order == old(order)
        invariant modules == Collect.AfterAll(old(modules), order[..i])
        invariant modules.Keys == old(modules).Keys
      {
        Collect.CollectChangesTablesOnly(old(modules), order[..i + 1]);
        Prune.PrefixStep(order, i);
        CollectModule(order[i]);
      }
      assert order[..|order|] == order;
    }

    /** One iteration of `collectExports`: the module's forwarded names are
        read first, then every edge credits its usage to its target when the
        target is in the graph. */
    method CollectModule(p: string)
      requires p in modules
      modifies this
      ensures order == old(order)
      ensures modules == Collect.AfterModule(old(modules), p)
    {
      var m := modules[p];
      var forwarded := ForwardedNames(m);
      var es := m.deps;
      for j := 0 to |es|
        invariant order == old(order)
        invariant modules == Collect.AfterEdges(old(modules), Forwarded(m), es[..j])
      {
        Prune.PrefixStep(es, j);
        CreditEdge(forwarded, Forwarded(m), es[j]);
      }
      assert es[..|es|] == es;
    }
  
    /** The body of the inner loop of `collectExports` for one edge `e` of a
        module whose forwarded names are `forwarded`: the target, when it is
        in the graph, gains the edge's default count, one reference per name
        the edge imports, and, when the edge uses `export *` and the target
        declares a forwarded name, the edge's `export *` count and one
        reference per such name. */
    method CreditEdge(forwarded: seq<string>, ghost names: set<string>, e: Dependency)
      requires Elements(forwarded) == names
      modifies this
      ensures order == old(order)
      ensures modules == Collect.AfterEdge(old(modules), names, e)
    {
      if e.target in modules {
        var t := modules[e.target];
        var table := CreditTable(t.table, t.namedExports, forwarded, names, e.snap);
        modules := modules[e.target := t.(table := table)];
      }
    }

    // -------------------------------------------------------------------
    // removeUnUsedExports
    // -------------------------------------------------------------------

    /** What removing one specifier of module `p` does to the graph
        (`dependency.importee...references--` and the
        `module.dependencies.delete(...)` calls beside it). */
    method ApplySpecifier(p: string, source: Option<string>, a: Prune.Action)
      requires p in modules
      requires a.RemoveDefaultForward? ==> a.target in modules && source.Some?
      requires a.RemoveNamedForward? ==> a.target in modules && a.name in modules[a.target].table.exports
      modifies this
      ensures order == old(order)
      ensures modules == Prune.ApplyAction(old(modules), p, source, a)
    {
      match a
      case RemoveDefaultForward(t) =>
        var target := modules[t];
        modules := modules[t := target.(table := target.table.(def := target.table.def - 1))];
        if WasNoReferences(modules[t].table) {
          DeleteDependency(p, source.value);
        }
        if !modules[p].defaultImportFound {
          DeleteDependency(p, InteropHelper);
        }
      case RemoveNamedForward(t, name) =>
        var target := modules[t];
        var exports := target.table.exports;
        modules := modules[t := target.(table := target.table.(exports := exports[name := exports[name] - 1]))];
      case _ =>
    }

    /** The visitor on one specifier of module `p`: its verdict, acted on
        unless it is a TypeError. */
    method StepSpecifier(p: string, copyDeps: seq<Dependency>, source: Option<string>, s: Specifier)
      returns (a: Prune.Action)
      requires p in modules
      modifies this
      ensures order == old(order) && p in modules
      ensures a == Prune.SpecifierAction(old(modules), p, copyDeps, source, s)
      ensures modules == if a == Prune.Throw then old(modules) else Prune.ApplyAction(old(modules), p, source, a)
    {
      a := Prune.SpecifierAction(modules, p, copyDeps, source, s);
      if a != Prune.Throw {
        ApplySpecifier(p, source, a);
      }
    }

    /** `module.dependencies.delete(source)` on module `p`. */
    method DeleteDependency(p: string, source: string)
      requires p in modules
      modifies this
      ensures order == old(order)
      ensures modules == Prune.DropEdges(old(modules), p, source)
    {
      modules := modules[p := modules[p].(deps := DeleteSource(modules[p].deps, source))];
    }

    /** The `forEach` over the specifiers of `export { ... } [from source]`
        in module `p`: each specifier is decided on the graph as the earlier
        ones left it, and removed through `indexs` (`removeSpecifier`).
        `threw` reports the TypeError that ends the pass. */
    method PruneSpecifiers(p: string, copyDeps: seq<Dependency>, source: Option<string>, specs: seq<Specifier>)
      returns (threw: bool, live: seq<Specifier>)
      requires p in modules
      modifies this
      ensures order == old(order)
      ensures var w := Prune.SpecifiersWalk(old(modules), p, copyDeps, source, specs);
        && (threw <==> w.SpecifierThrew?)
        && (!threw ==> modules == w.ms && live == Prune.Survivors(specs, w.kept))
    {
      ghost var kept: seq<bool> := [];
      var indexs := Prune.Range(0, |specs|);
      live := specs;
      Prune.WalkedStart(specs);
      for index := 0 to |specs|
        invariant order == old(order) && p in modules && |kept| == index
        invariant Prune.SpecifiersWalk(old(modules), p, copyDeps, source, specs[..index]) == Prune.SpecifierWalk(modules, kept)
        invariant Prune.Walked(specs, kept, indexs, live)
      {
        Prune.SpecifiersWalkStep(old(modules), p, copyDeps, source, specs, index);
        var a := StepSpecifier(p, copyDeps, source, specs[index]);
        if a == Prune.Throw {
          Prune.SpecifiersThrewStays(old(modules), p, copyDeps, source, specs, index + 1);
          return true, live;
        }
        indexs, live := Prune.Advance(specs, kept, indexs, live, index, a != Prune.Retain);
        kept := kept + [a == Prune.Retain];
      }
      assert specs[..|specs|] == specs;
      Prune.WalkedDone(specs, kept, indexs, live);
      threw := false;
    }

    /** The visitor on one export statement of module `p`: what is left of
        the statement (nothing, itself, or a rebuilt one), whether it
        changed, or the TypeError that ends the pass. */
    method PruneItem(p: string, copyDeps: seq<Dependency>, noForwarded: bool, item: ExportItem)
      returns (threw: bool, last: seq<ExportItem>, changed: bool)
      requires p in modules
      modifies this
      ensures order == old(order)
      ensures var r := Prune.StepItem(old(modules), p, copyDeps, noForwarded, item);
        && (threw <==> r.ItemThrew?)
        && (!threw ==> r == Prune.ItemWalk(modules, last, changed))
    {
      var m := modules[p];
      threw, last, changed := false, [item], false;
      match item
      case ClassOrFunction(name) =>
        var verdict := Prune.BindingVerdict(m.table.exports, m.bindings, name);
        if verdict == Prune.Crash {
          threw := true;
        } else if verdict == Prune.Drop {
          last, changed := [], true;
        }
      case VarDecl(decls) =>
        var ok, live := Prune.PruneDeclarators(decls, m.table.exports, m.bindings);
        if !ok {
          threw := true;
        } else {
          Prune.TrimmedBySurvivors(modules, item, decls, Prune.DeclaratorsKept(decls, m.table.exports, m.bindings),
                                   VarDecl(live));
          if |live| != |decls| {
            last, changed := if live == [] then [] else [VarDecl(live)], true;
          }
        }
      case Specifiers(source, specs) =>
        var failed, live := PruneSpecifiers(p, copyDeps, source, specs);
        if failed {
          threw := true;
        } else {
          ghost var w := Prune.SpecifiersWalk(old(modules), p, copyDeps, source, specs);
          Prune.TrimmedBySurvivors(modules, item, specs, w.kept, Specifiers(source, live));
          if |live| != |specs| {
            last, changed := if live == [] then [] else [Specifiers(source, live)], true;
          }
        }
      case DefaultExpr =>
        if m.table.def == 0 {
          last, changed := [], true;
        }
      case ExportAll(_) =>
        if noForwarded {
          last, changed := [], true;
        }
    }

    /** One iteration of `removeUnUsedExports` for module `p`: its
        forwarded names and a copy of its dependencies are taken first, its
        statements are visited in order, and its output is regenerated when
        one of them changed. `ok` is false on a TypeError. */
    method PruneModule(p: string) returns (ok: bool)
      requires p in modules
      modifies this
      ensures order == old(order)
      ensures var r := Prune.Pruned(old(modules), p, regenerate);
        (ok <==> r.Some?) && (ok ==> modules == r.value)
    {
      var m := modules[p];
      var forwarded := ForwardedNames(m);
      var copyDeps := m.deps;
      var noForwarded := |forwarded| == 0;
      if forwarded != [] {
        assert forwarded[0] in Forwarded(m);
      }
      var items := m.items;
      var out: seq<ExportItem> := [];
      var changed := false;
      for i := 0 to |items|
        invariant order == old(order) && p in modules
        invariant Prune.ItemsWalk(old(modules), p, copyDeps, noForwarded, items[..i]) ==
                  Prune.ItemWalk(modules, out, changed)
      {
        Prune.ItemsWalkStep(old(modules), p, copyDeps, noForwarded, items, i);
        var threw, last, c := PruneItem(p, copyDeps, noForwarded, items[i]);
        if threw {
          Prune.ItemsThrewStays(old(modules), p, copyDeps, noForwarded, items, i + 1);
          return false;
        }
        out, changed := out + last, changed || c;
      }
      assert items[..|items|] == items;
      var m' := modules[p].(items := out);
      if changed {
        m' := m'.(output := regenerate(p, out));
      }
      modules := modules[p := m'];
      ok := true;
    }

    /** The modules of `ps` that are not ignored, in order. */
    function Unignored(ps: seq<string>): (r: seq<string>)
      ensures forall q :: q in r <==> q in ps && !Ignore(q)
    {
      if ps == [] then []
      else Unignored(ps[..|ps| - 1]) + (if Ignore(ps[|ps| - 1]) then [] else [ps[|ps| - 1]])
    }

    /** The not-ignored modules of a prefix come first among those of the
        whole sequence. */
    lemma {:induction false} UnignoredPrefix(ps: seq<string>, n: nat)
      requires n <= |ps|
      ensures Unignored(ps[..n]) <= Unignored(ps)
    {
      if n < |ps| {
        var init := ps[..|ps| - 1];
        assert init[..n] == ps[..n];
        UnignoredPrefix(init, n);
      } else {
        assert ps[..n] == ps;
      }
    }

    lemma UnignoredStep(ps: seq<string>, i: nat)
      requires i < |ps|
      ensures Ignore(ps[i]) ==> Unignored(ps[..i + 1]) == Unignored(ps[..i])
      ensures !Ignore(ps[i]) ==> Unignored(ps[..i + 1]) == Unignored(ps[..i]) + [ps[i]]
    {
      assert ps[..i + 1][..i] == ps[..i];
      assert Unignored(ps[..i]) + [] == Unignored(ps[..i]);
    }

    /** A TypeError in the first `n` modules rejects the whole pass. */
    lemma PruneFailed(ms: map<string, Module>, ps: seq<string>, n: nat)
      requires n <= |ps|
      requires Prune.PrunedAll(ms, Unignored(ps[..n]), regenerate).None?
      ensures Prune.PrunedAll(ms, Unignored(ps), regenerate).None?
    {
      UnignoredPrefix(ps, n);
      assert Unignored(ps)[..|Unignored(ps[..n])|] == Unignored(ps[..n]);
      Prune.PrunedAllNoneStays(ms, Unignored(ps), |Unignored(ps[..n])|, regenerate);
    }

    /** `removeUnUsedExports`: every module that is not ignored, in
        insertion order. `ok` is false when a TypeError ended the pass. */
    method RemoveUnusedExports() returns (ok: bool)
      requires Valid()
      modifies this
      ensures order == old(order)
      ensures var r := Prune.PrunedAll(old(modules), Unignored(order), regenerate);
        (ok <==> r.Some?) && (ok ==> modules == r.value && Valid())
    {
      for i := 0 to |order|
        invariant order == old(order)
        invariant Prune.PrunedAll(old(modules), Unignored(order[..i]), regenerate) == Some(modules)
        invariant modules.Keys == old(modules).Keys
      {
        var p := order[i];
        UnignoredStep(order, i);
        if !Ignore(p) {
          assert p in Elements(order);
          ghost var before := modules;
          ghost var done := Unignored(order[..i]);
          Prune.PrunedAllStep(old(modules), done, p, regenerate);
          var pruned := PruneModule(p);
          if !pruned {
            assert Prune.PrunedAll(old(modules), Unignored(order[..i + 1]), regenerate).None?;
            PruneFailed(old(modules), order, i + 1);
            return false;
          }
          assert Prune.Pruned(before, p, regenerate) == Some(modules);
        }
      }
      assert order[..|order|] == order;
      ok := true;
    }

    // -------------------------------------------------------------------
    // The sweep of treeShaking
    // -------------------------------------------------------------------

    /** The first loop after `removeUnUsedExports`: the modules that are not
        ignored and have no reference left, in insertion order. */
    method SeedQueue() returns (queue: seq<string>)
      requires Valid()
      ensures NoDuplicates(queue)
      ensures forall q :: q in queue <==> q in modules && !Ignore(q) && WasNoReferences(modules[q].table)
    {
      queue := [];
      for i := 0 to |order|
        invariant NoDuplicates(queue)
        invariant forall q :: q in queue <==>
          q in order[..i] && q in modules && !Ignore(q) && WasNoReferences(modules[q].table)
      {
        var p := order[i];
        Prune.PrefixStep(order, i);
        assert p in Elements(order);
        if !Ignore(p) && WasNoReferences(modules[p].table) {
          queue := queue + [p];
        }
      }
      assert order[..|order|] == order;
    }

    /** The loop over the edges of a deleted module: each target still in
        the graph loses the edge's snapshot, and joins the queue, unless it
        is already there, when that leaves it without references. */
    method DebitTargets(deps: seq<Dependency>, queue: seq<string>) returns (queue': seq<string>)
      modifies this
      ensures order == old(order)
      ensures modules == Sweep.DebitEdges(old(modules), deps)
      ensures queue' == Sweep.EnqueueAll(old(modules), queue, deps)
      ensures modules.Keys == old(modules).Keys
      ensures queue <= queue'
      ensures NoDuplicates(queue) ==> NoDuplicates(queue')
      ensures forall q :: q in modules && WasNoReferences(modules[q].table) ==>
        q in queue' || modules[q] == old(modules)[q]
      ensures (forall d :: d in deps ==> NonNegative(d.snap)) ==>
        forall q :: q in queue' && q !in queue && q in modules ==> WasNoReferences(modules[q].table)
    {
      queue' := queue;
      for j := 0 to |deps|
        invariant order == old(order)
        invariant modules == Sweep.DebitEdges(old(modules), deps[..j])
        invariant queue' == Sweep.EnqueueAll(old(modules), queue, deps[..j])
        invariant modules.Keys == old(modules).Keys
        invariant queue <= queue'
        invariant NoDuplicates(queue) ==> NoDuplicates(queue')
        invariant forall q :: q in modules && WasNoReferences(modules[q].table) ==>
          q in queue' || modules[q] == old(modules)[q]
        invariant (forall d :: d in deps ==> NonNegative(d.snap)) ==>
          forall q :: q in queue' && q !in queue && q in modules ==> WasNoReferences(modules[q].table)
      {
        Prune.PrefixStep(deps, j);
        Sweep.EnqueueAllStep(old(modules), queue, deps[..j], deps[j]);
        queue' := DebitTarget(deps[j], queue');
      }
      assert deps[..|deps|] == deps;
    }

    /** One edge of a deleted module: its target, when still in the graph,
        is debited and, once exhausted, queued unless already queued. */
    method DebitTarget(d: Dependency, queue: seq<string>) returns (queue': seq<string>)
      modifies this
      ensures order == old(order)
      ensures modules == Sweep.DebitEdge(old(modules), d)
      ensures queue' == Sweep.Enqueue(old(modules), queue, d)
      ensures queue <= queue'
      ensures NoDuplicates(queue) ==> NoDuplicates(queue')
      ensures forall q :: q in modules && WasNoReferences(modules[q].table) ==>
        q in queue' || modules[q] == old(modules)[q]
      ensures NonNegative(d.snap) ==>
        && (forall q :: q in queue' && q !in queue && q in modules ==> WasNoReferences(modules[q].table))
        && (forall q :: q in old(modules) && WasNoReferences(old(modules)[q].table) ==> WasNoReferences(modules[q].table))
    {
      queue' := queue;
      if d.target in modules {
        var t := modules[d.target];
        if NonNegative(d.snap) {
          DebitLowers(t.table, d.snap);
          if WasNoReferences(t.table) {
            LoweredKeepsExhausted(t.table, Debit(t.table, d.snap));
          }
        }
        var exports := Deduct(t.table.exports, d.snap.exports);
        var table := ExportTable(t.table.def - d.snap.def, t.table.all - d.snap.all, exports);
        modules := modules[d.target := t.(table := table)];
        if WasNoReferences(modules[d.target].table) && d.target !in queue' {
          queue' := queue' + [d.target];
        }
      }
    }

    /** One turn of the sweep that deletes `p`: it leaves the graph (and the
        insertion order) first, then its edges are debited. */
    method DeleteModule(p: string, queue: seq<string>) returns (queue': seq<string>)
      requires Valid() && p in modules
      modifies this
      ensures Valid()
      ensures modules == Sweep.Remove(old(modules), p)
      ensures queue' == Sweep.RemoveQueue(old(modules), queue, p)
      ensures modules.Keys == old(modules).Keys - {p}
      ensures queue <= queue'
      ensures NoDuplicates(queue) ==> NoDuplicates(queue')
      ensures forall q :: q in modules && WasNoReferences(modules[q].table) ==>
        q in queue' || modules[q] == old(modules)[q]
      ensures (forall d :: d in old(modules)[p].deps ==> NonNegative(d.snap)) ==>
        && (forall q :: q in queue' && q !in queue && q in modules ==> WasNoReferences(modules[q].table))
        && (forall q :: q in modules && WasNoReferences(old(modules)[q].table) ==> WasNoReferences(modules[q].table))
    {
      var m := modules[p];
      ghost var rest := modules - {p};
      forall q ensures q in Without(order, {p}) <==> q in order && q != p {
        WithoutMembers(order, {p}, q);
      }
      WithoutNoDuplicates(order, {p});
      modules := modules - {p};
      order := Without(order, {p});
      queue' := DebitTargets(m.deps, queue);
      if forall d :: d in m.deps ==> NonNegative(d.snap) {
        Sweep.DebitEdgesLowers(rest, m.deps);
        forall q | q in modules && WasNoReferences(rest[q].table)
          ensures WasNoReferences(modules[q].table)
        {
          LoweredKeepsExhausted(rest[q].table, modules[q].table);
        }
      }
    }

    /** Where the sweep stands after deleting `removed` from `start`, with
        `queue` still to visit: the graph is `start` with `removed` deleted
        in order; no ignored module was deleted; every module left that is
        neither ignored nor referenced is queued; and, when `sound` holds,
        every deleted module had no reference left when it was deleted and
        every queued module still in the graph has none. */
    ghost predicate Swept(start: map<string, Module>, ms: map<string, Module>, queue: seq<string>,
                          removed: seq<string>, sound: bool)
    {
      && SweptGraph(start, ms, removed)
      && SweptQueued(ms, queue)
      && (sound ==> SweptSound(start, ms, queue, removed))
    }

    /** The graph is `start` with `removed` deleted in order, none of them
        ignored. */
    ghost predicate SweptGraph(start: map<string, Module>, ms: map<string, Module>, removed: seq<string>)
    {
      && ms == Sweep.RemoveAll(start, removed)
      && ms.Keys == start.Keys - Elements(removed)
      && NoDuplicates(removed)
      && (forall q :: q in removed ==> q in start && !Ignore(q))
    }

    /** Every module left that is neither ignored nor referenced is queued. */
    ghost predicate SweptQueued(ms: map<string, Module>, queue: seq<string>)
    {
      && NoDuplicates(queue)
      && (forall q :: q in ms && !Ignore(q) && WasNoReferences(ms[q].table) ==> q in queue)
    }

    /** Every deleted module had no reference left when it was deleted, and
        every queued module still in the graph has none. */
    ghost predicate SweptSound(start: map<string, Module>, ms: map<string, Module>, queue: seq<string>,
                               removed: seq<string>)
    {
      && Sweep.DeletedWhenExhausted(start, removed)
      && (forall q :: q in queue && q in ms && !Ignore(q) ==> WasNoReferences(ms[q].table))
    }

    /** A queued path that is gone or ignored is dropped. */
    lemma SweptSkip(start: map<string, Module>, ms: map<string, Module>, queue: seq<string>,
                    removed: seq<string>, sound: bool)
      requires Swept(start, ms, queue, removed, sound) && queue != []
      requires queue[0] !in ms || Ignore(queue[0])
      ensures Swept(start, ms, queue[1..], removed, sound)
    {
      forall q | q in ms && !Ignore(q) && WasNoReferences(ms[q].table)
        ensures q in queue[1..]
      {
        assert q in queue && q != queue[0];
      }
    }

    /** Deleting the head `p` of the queue and debiting its edges, as
        `DeleteModule` does, keeps the sweep's invariant. */
    lemma SweptDelete(start: map<string, Module>, ms: map<string, Module>, queue: seq<string>,
                      removed: seq<string>, sound: bool, ms': map<string, Module>, queue': seq<string>)
      requires Swept(start, ms, queue, removed, sound) && queue != []
      requires queue[0] in ms && !Ignore(queue[0])
      requires sound ==> Collect.SnapshotsNonNegative(start)
      requires ms' == Sweep.Remove(ms, queue[0]) && ms'.Keys == ms.Keys - {queue[0]}
      requires queue[1..] <= queue' && (NoDuplicates(queue[1..]) ==> NoDuplicates(queue'))
      requires forall q :: q in ms' && WasNoReferences(ms'[q].table) ==> q in queue' || ms'[q] == ms[q]
      requires (forall d :: d in ms[queue[0]].deps ==> NonNegative(d.snap)) ==>
        && (forall q :: q in queue' && q !in queue[1..] && q in ms' ==> WasNoReferences(ms'[q].table))
        && (forall q :: q in ms' && WasNoReferences(ms[q].table) ==> WasNoReferences(ms'[q].table))
      ensures Swept(start, ms', queue', removed + [queue[0]], sound)
    {
      DeleteKeepsGraph(start, ms, removed, queue[0], ms');
      DeleteKeepsQueued(ms, queue, ms', queue');
      if sound {
        DeleteKeepsSound(start, ms, queue, removed, ms', queue');
      }
    }

    lemma DeleteKeepsGraph(start: map<string, Module>, ms: map<string, Module>, removed: seq<string>,
                           p: string, ms': map<string, Module>)
      requires SweptGraph(start, ms, removed) && p in ms && !Ignore(p)
      requires ms' == Sweep.Remove(ms, p)
      ensures SweptGraph(start, ms', removed + [p])
    {
      Sweep.RemoveAllKeys(start, removed + [p]);
      Sweep.RemoveAllStep(start, removed, p);
      ElementsAppend(removed, p);
      AppendNoDuplicates(removed, p);
      forall q | q in removed + [p] ensures q in start && !Ignore(q) {
        assert q in removed || q == p;
      }
    }

    lemma DeleteKeepsQueued(ms: map<string, Module>, queue: seq<string>, ms': map<string, Module>, queue': seq<string>)
      requires SweptQueued(ms, queue) && queue != []
      requires ms'.Keys == ms.Keys - {queue[0]}
      requires queue[1..] <= queue' && (NoDuplicates(queue[1..]) ==> NoDuplicates(queue'))
      requires forall q :: q in ms' && WasNoReferences(ms'[q].table) ==> q in queue' || ms'[q] == ms[q]
      ensures SweptQueued(ms', queue')
    {
      forall q | q in ms' && !Ignore(q) && WasNoReferences(ms'[q].table)
        ensures q in queue'
      {
        if ms'[q] == ms[q] {
          assert q in queue[1..];
        }
      }
    }

    lemma DeleteKeepsSound(start: map<string, Module>, ms: map<string, Module>, queue: seq<string>,
                           removed: seq<string>, ms': map<string, Module>, queue': seq<string>)
      requires SweptGraph(start, ms, removed) && SweptSound(start, ms, queue, removed)
      requires queue != [] && queue[0] in ms && !Ignore(queue[0])
      requires Collect.SnapshotsNonNegative(start) && ms'.Keys <= ms.Keys
      requires (forall d :: d in ms[queue[0]].deps ==> NonNegative(d.snap)) ==>
        && (forall q :: q in queue' && q !in queue[1..] && q in ms' ==> WasNoReferences(ms'[q].table))
        && (forall q :: q in ms' && WasNoReferences(ms[q].table) ==> WasNoReferences(ms'[q].table))
      ensures SweptSound(start, ms', queue', removed + [queue[0]])
    {
      var p := queue[0];
      assert (removed + [p])[..|removed|] == removed;
      Sweep.RemoveAllKeys(start, removed);
      assert ms[p].deps == start[p].deps;
      assert forall d :: d in ms[p].deps ==> NonNegative(d.snap);
      forall q | q in queue' && q in ms' && !Ignore(q)
        ensures WasNoReferences(ms'[q].table)
      {
        if q in queue[1..] {
          assert q in queue;
        }
      }
    }

    /** The `do ... while` of `treeShaking`: take the head of the queue;
        skip it when it is no longer in the graph or is ignored, delete it
        otherwise. The ghost `removed` lists the deleted modules in order.
        Given a queue that holds every module without references, the
        sweep ends with no module left that is neither ignored nor
        referenced; given non-negative snapshots and a queue of such modules
        only, every module it deletes had no reference left when it was
        deleted. */
    method RemoveDeadModules(seed: seq<string>) returns (ghost removed: seq<string>)
      requires Valid() && NoDuplicates(seed)
      requires forall q :: q in modules && !Ignore(q) && WasNoReferences(modules[q].table) ==> q in seed
      modifies this
      ensures Valid()
      ensures modules == Sweep.RemoveAll(old(modules), removed)
      ensures modules.Keys == old(modules).Keys - Elements(removed)
      ensures NoDuplicates(removed)
      ensures forall q :: q in removed ==> q in old(modules) && !Ignore(q)
      ensures forall q :: q in modules && !Ignore(q) ==> !WasNoReferences(modules[q].table)
      ensures Collect.SnapshotsNonNegative(old(modules)) &&
              (forall q :: q in seed && q in old(modules) && !Ignore(q) ==> WasNoReferences(old(modules)[q].table))
              ==> Sweep.DeletedWhenExhausted(old(modules), removed)
    {
      ghost var sound := Collect.SnapshotsNonNegative(modules) &&
        (forall q :: q in seed && q in modules && !Ignore(q) ==> WasNoReferences(modules[q].table));
      assert Swept(modules, modules, seed, [], sound);
      removed := Drain(seed, sound);
    }

    /** The loop of `RemoveDeadModules`, from a queue on which the sweep's
        invariant holds to the empty queue. */
    method Drain(queue0: seq<string>, ghost sound: bool) returns (ghost removed: seq<string>)
      requires Valid() && Swept(modules, modules, queue0, [], sound)
      requires sound ==> Collect.SnapshotsNonNegative(modules)
      modifies this
      ensures Valid() && Swept(old(modules), modules, [], removed, sound)
    {
      var queue := queue0;
      removed := [];
      while queue != []
        invariant Valid()
        invariant Swept(old(modules), modules, queue, removed, sound)
        decreases |modules.Keys|, |queue|
      {
        queue, removed := Shift(old(modules), queue, removed, sound);
      }
    }

    /** One turn of the `do ... while`: `removedDependencies.shift()`, then
        skip or delete. */
    method Shift(ghost start: map<string, Module>, queue: seq<string>, ghost removed: seq<string>, ghost sound: bool)
      returns (queue': seq<string>, ghost removed': seq<string>)
      requires Valid() && Swept(start, modules, queue, removed, sound) && queue != []
      requires sound ==> Collect.SnapshotsNonNegative(start)
      modifies this
      ensures Valid() && Swept(start, modules, queue', removed', sound)
      ensures |modules.Keys| < |old(modules).Keys| ||
              (|modules.Keys| == |old(modules).Keys| && |queue'| < |queue|)
    {
      var p := queue[0];
      if p in modules && !Ignore(p) {
        ghost var before := modules;
        queue' := DeleteModule(p, queue[1..]);
        SweptDelete(start, before, queue, removed, sound, modules, queue');
        removed' := removed + [p];
        assert modules.Keys < before.Keys;
      } else {
        SweptSkip(start, modules, queue, removed, sound);
        queue', removed' := queue[1..], removed;
      }
    }

    // -------------------------------------------------------------------
    // Removing the edges to deleted modules, and the whole pass
    // -------------------------------------------------------------------

    /** The inner loop of the last pass of `treeShaking` over one module's
        edges: an edge stays exactly when its target is still in the graph. */
    method LiveEdges(deps: seq<Dependency>) returns (kept: seq<Dependency>)
      ensures kept == LiveDeps(deps, modules.Keys)
    {
      kept := [];
      for j := 0 to |deps|
        invariant kept == LiveDeps(deps[..j], modules.Keys)
      {
        Prune.PrefixStep(deps, j);
        if deps[j].target in modules {
          kept := kept + [deps[j]];
        }
      }
      assert deps[..|deps|] == deps;
    }

    /** One module of the last pass drops its edges to deleted modules. */
    method CleanModule(p: string)
      requires p in modules
      modifies this
      ensures order == old(order)
      ensures modules == old(modules)[p := old(modules)[p].(deps := LiveDeps(old(modules)[p].deps, old(modules).Keys))]
    {
      var kept := LiveEdges(modules[p].deps);
      modules := modules[p := modules[p].(deps := kept)];
    }

    /** The last pass of `treeShaking`: every module, in insertion order,
        drops its edges to modules no longer in the graph. */
    method CleanupEdges()
      requires Valid()
      modifies this
      ensures Valid() && order == old(order)
      ensures modules == Cleaned(old(modules))
    {
      for i := 0 to |order|
        invariant order == old(order)
        invariant CleanedUpTo(old(modules), modules, order[..i])
      {
        var p := order[i];
        Prune.PrefixStep(order, i);
        assert p in Elements(order);
        assert p !in order[..i];
        CleanedUpToStep(old(modules), modules, order[..i], p);
        CleanModule(p);
      }
      assert order[..|order|] == order;
      CleanedUpToAll(old(modules), modules, order);
    }

    /** `treeShaking`: collect, prune, sweep, clean up. `ok` is false when a
        TypeError rejected the pruning pass; the ghost `removed` lists the
        deleted modules in the order they were deleted. */
    method TreeShaking() returns (ok: bool, ghost removed: seq<string>)
      requires Valid()
      modifies this
      ensures var pruned := Prune.PrunedAll(Collect.AfterAll(old(modules), old(order)), Unignored(old(order)), regenerate);
        && (ok <==> pruned.Some?)
        && (ok ==> modules == Cleaned(Sweep.RemoveAll(pruned.value, removed)))
      ensures ok ==> Valid() && NoDangling(modules)
      ensures ok ==> forall q :: q in old(modules) ==> (q in modules <==> q !in removed)
      ensures ok ==> forall q :: q in old(modules) && Ignore(q) ==> q in modules
      ensures ok ==> forall q :: q in modules && !Ignore(q) ==> !WasNoReferences(modules[q].table)
      ensures ok && Collect.SnapshotsNonNegative(old(modules)) ==>
        Sweep.DeletedWhenExhausted(Prune.PrunedAll(Collect.AfterAll(old(modules), old(order)),
                                                   Unignored(old(order)), regenerate).value, removed)
    {
      removed := [];
      ghost var start := modules;
      CollectExports();
      ghost var collected := modules;
      ok := RemoveUnusedExports();
      if !ok {
        return;
      }
      ghost var pruned := modules;
      Collect.CollectChangesTablesOnly(start, order);
      Prune.PrunedAllFrame(collected, Unignored(order), regenerate);
      assert Collect.SnapshotsNonNegative(start) ==> Collect.SnapshotsNonNegative(pruned);
      var seed := SeedQueue();
      removed := RemoveDeadModules(seed);
      ghost var swept := modules;
      CleanupEdges();
      CleanedExactly(swept);
    }
  }
}
