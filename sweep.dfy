/**
 * The specification of the sweep in `treeShaking`
 * (packages/metro-tree-shaking/src/index.js): deleting a module from the
 * graph takes what each of its edges used away from the edge's target. The
 * worklist in TreeShaking.Graph.RemoveDeadModules is proved to leave the
 * graph equal to `RemoveAll` of the modules it deleted, in deletion order.
 */
module Sweep {
  import opened Utils
  import opened ExportTables
  import opened Modules
  import Collect

  /** One edge of a deleted module: the target, when it is still in the
      graph, loses the snapshot's default, `export *` and named counts. */
  function DebitEdge(ms: map<string, Module>, e: Dependency): (r: map<string, Module>)
    ensures r.Keys == ms.Keys
  {
    if e.target !in ms then ms
    else ms[e.target := ms[e.target].(table := Debit(ms[e.target].table, e.snap))]
  }

  /** The edges `es`, taken in order. */
  function DebitEdges(ms: map<string, Module>, es: seq<Dependency>): (r: map<string, Module>)
    ensures r.Keys == ms.Keys
  {
    if es == [] then ms
    else DebitEdge(DebitEdges(ms, es[..|es| - 1]), es[|es| - 1])
  }

  /** One turn of the sweep that deletes `p`: `p` leaves the graph first, so
      an edge of `p` to itself debits nothing. Nothing happens when `p` is
      no longer in the graph. */
  function Remove(ms: map<string, Module>, p: string): map<string, Module>
  {
    if p !in ms then ms else DebitEdges(ms - {p}, ms[p].deps)
  }

  /** The queue after the edge `e` of a deleted module was debited from
      `ms`: the target joins the end when it is still in the graph, has no
      reference left and is not queued yet. */
  function Enqueue(ms: map<string, Module>, queue: seq<string>, e: Dependency): seq<string>
  {
    if e.target in ms && WasNoReferences(DebitEdge(ms, e)[e.target].table) && e.target !in queue
    then queue + [e.target]
    else queue
  }

  /** The queue after the edges `es`, taken in order, each debited from the
      graph the earlier ones left. */
  function EnqueueAll(ms: map<string, Module>, queue: seq<string>, es: seq<Dependency>): seq<string>
  {
    if es == [] then queue
    else Enqueue(DebitEdges(ms, es[..|es| - 1]), EnqueueAll(ms, queue, es[..|es| - 1]), es[|es| - 1])
  }

  /** The queue after the sweep deleted `p` from `ms`. */
  function RemoveQueue(ms: map<string, Module>, queue: seq<string>, p: string): seq<string>
  {
    if p !in ms then queue else EnqueueAll(ms - {p}, queue, ms[p].deps)
  }

  /** Debiting one more edge. */
  lemma EnqueueAllStep(ms: map<string, Module>, queue: seq<string>, es: seq<Dependency>, e: Dependency)
    ensures EnqueueAll(ms, queue, es + [e]) == Enqueue(DebitEdges(ms, es), EnqueueAll(ms, queue, es), e)
    ensures DebitEdges(ms, es + [e]) == DebitEdge(DebitEdges(ms, es), e)
  {
    assert (es + [e])[..|es|] == es;
  }

  /** Some edge of `es` points at `q`, a module of the graph, and leaves it
      without a reference once the edges up to it have been debited. */
  ghost predicate ExhaustedBy(ms: map<string, Module>, es: seq<Dependency>, q: string)
  {
    q in ms && exists i :: 0 <= i < |es| && es[i].target == q && WasNoReferences(DebitEdges(ms, es[..i + 1])[q].table)
  }

  lemma ExhaustedByStep(ms: map<string, Module>, es: seq<Dependency>, q: string)
    requires es != []
    ensures ExhaustedBy(ms, es, q) <==>
      ExhaustedBy(ms, es[..|es| - 1], q) ||
      (q in ms && es[|es| - 1].target == q && WasNoReferences(DebitEdges(ms, es)[q].table))
  {
    var init := es[..|es| - 1];
    assert es[..|es|] == es;
    forall i | 0 <= i < |init|
      ensures es[i] == init[i] && es[..i + 1] == init[..i + 1]
    {
    }
  }

  /** Debiting edges only appends to the queue, and never the same module
      twice. */
  lemma {:induction false} EnqueueAllGrows(ms: map<string, Module>, queue: seq<string>, es: seq<Dependency>)
    ensures queue <= EnqueueAll(ms, queue, es)
    ensures NoDuplicates(queue) ==> NoDuplicates(EnqueueAll(ms, queue, es))
  {
    if es != [] {
      var init := es[..|es| - 1];
      var e := es[|es| - 1];
      EnqueueAllGrows(ms, queue, init);
      var before := EnqueueAll(ms, queue, init);
      if NoDuplicates(before) && e.target !in before {
        AppendNoDuplicates(before, e.target);
      }
    }
  }

  /** The queue gains exactly the modules of the graph that some edge
      points at and that had no reference left right after that edge. */
  lemma {:induction false} EnqueueAllExactly(ms: map<string, Module>, queue: seq<string>, es: seq<Dependency>, q: string)
    ensures q in EnqueueAll(ms, queue, es) <==> q in queue || ExhaustedBy(ms, es, q)
  {
    if es != [] {
      EnqueueAllExactly(ms, queue, es[..|es| - 1], q);
      ExhaustedByStep(ms, es, q);
      LastSplit(es);
    }
  }

  /** The modules `ps` deleted in order. */
  function RemoveAll(ms: map<string, Module>, ps: seq<string>): map<string, Module>
  {
    if ps == [] then ms
    else Remove(RemoveAll(ms, ps[..|ps| - 1]), ps[|ps| - 1])
  }

  /** The snapshots of the edges of `es` that point at `t`, in order. */
  function Snaps(es: seq<Dependency>, t: string): seq<ExportTable>
  {
    if es == [] then []
    else Snaps(es[..|es| - 1], t) + (if es[|es| - 1].target == t then [es[|es| - 1].snap] else [])
  }

  /** A table after the snapshots `snaps` were debited, in order. */
  function DebitAll(t: ExportTable, snaps: seq<ExportTable>): ExportTable
  {
    if snaps == [] then t
    else Debit(DebitAll(t, snaps[..|snaps| - 1]), snaps[|snaps| - 1])
  }

  /** The snapshots that deleting the modules `ps` of `ms` takes from `t`:
      those of every edge from a deleted module to `t`, in deletion order. */
  function Incoming(ms: map<string, Module>, ps: seq<string>, t: string): seq<ExportTable>
  {
    if ps == [] then []
    else Incoming(ms, ps[..|ps| - 1], t) +
         (if ps[|ps| - 1] in ms then Snaps(ms[ps[|ps| - 1]].deps, t) else [])
  }

  /** `after` keeps some of the modules of `before` and changes nothing in
      them but their export tables. */
  ghost predicate TablesWithin(before: map<string, Module>, after: map<string, Module>)
  {
    && after.Keys <= before.Keys
    && forall q :: q in after ==> after[q] == before[q].(table := after[q].table)
  }

  lemma TablesWithinTransitive(a: map<string, Module>, b: map<string, Module>, c: map<string, Module>)
    requires TablesWithin(a, b) && TablesWithin(b, c)
    ensures TablesWithin(a, c)
  {
  }

  lemma {:induction false} DebitAllConcat(t: ExportTable, s1: seq<ExportTable>, s2: seq<ExportTable>)
    ensures DebitAll(t, s1 + s2) == DebitAll(DebitAll(t, s1), s2)
  {
    if s2 == [] {
      assert s1 + s2 == s1;
    } else {
      DebitAllConcat(t, s1, s2[..|s2| - 1]);
      assert (s1 + s2)[..|s1 + s2| - 1] == s1 + s2[..|s2| - 1];
    }
  }

  /** Debiting a deleted module's edges keeps every module and changes
      only tables; each module's table loses exactly the snapshots of the
      edges that point at it. */
  lemma {:induction false} DebitEdgesEffect(ms: map<string, Module>, es: seq<Dependency>, t: string)
    ensures DebitEdges(ms, es).Keys == ms.Keys
    ensures TablesWithin(ms, DebitEdges(ms, es))
    ensures t in ms ==> DebitEdges(ms, es)[t].table == DebitAll(ms[t].table, Snaps(es, t))
  {
    if es != [] {
      var init := es[..|es| - 1];
      var e := es[|es| - 1];
      DebitEdgesEffect(ms, init, t);
      var mid := DebitEdges(ms, init);
      TablesWithinTransitive(ms, mid, DebitEdge(mid, e));
      if t in ms && e.target == t {
        DebitAllConcat(ms[t].table, Snaps(init, t), [e.snap]);
        assert [e.snap][..0] == [];
      } else if t in ms {
        assert Snaps(es, t) == Snaps(init, t) + [] == Snaps(init, t);
        assert DebitEdges(ms, es) == DebitEdge(mid, e);
        assert DebitEdge(mid, e)[t] == mid[t];
      }
    }
  }

  /** Deleting `ps` leaves exactly the other modules, changed in their
      tables only. */
  lemma {:induction false} RemoveAllKeys(ms: map<string, Module>, ps: seq<string>)
    ensures RemoveAll(ms, ps).Keys == ms.Keys - Elements(ps)
    ensures TablesWithin(ms, RemoveAll(ms, ps))
  {
    if ps != [] {
      var init := ps[..|ps| - 1];
      var p := ps[|ps| - 1];
      RemoveAllKeys(ms, init);
      var mid := RemoveAll(ms, init);
      assert Elements(ps) == Elements(init) + {p} by {
        assert ps == init + [p];
      }
      if p in mid {
        DebitEdgesEffect(mid - {p}, mid[p].deps, p);
        TablesWithinTransitive(ms, mid, mid - {p});
        TablesWithinTransitive(ms, mid - {p}, Remove(mid, p));
      }
    }
  }

  /** A module the sweep keeps ends with its table debited by the snapshot
      of every edge that a deleted module had to it. */
  lemma {:induction false} RemoveAllSurvivor(ms: map<string, Module>, ps: seq<string>, t: string)
    requires NoDuplicates(ps) && t in ms && t !in ps
    ensures t in RemoveAll(ms, ps)
    ensures RemoveAll(ms, ps)[t] == ms[t].(table := DebitAll(ms[t].table, Incoming(ms, ps, t)))
  {
    RemoveAllKeys(ms, ps);
    if ps != [] {
      var init := ps[..|ps| - 1];
      var p := ps[|ps| - 1];
      RemoveAllSurvivor(ms, init, t);
      RemoveAllKeys(ms, init);
      var mid := RemoveAll(ms, init);
      if p in ms {
        assert p !in init by {
          assert ps == init + [p];
        }
        assert mid[p].deps == ms[p].deps;
        DebitEdgesEffect(mid - {p}, ms[p].deps, t);
        DebitAllConcat(ms[t].table, Incoming(ms, init, t), Snaps(ms[p].deps, t));
      } else {
        assert p !in mid;
        assert RemoveAll(ms, ps) == mid;
        assert Incoming(ms, ps, t) == Incoming(ms, init, t) + [] == Incoming(ms, init, t);
      }
    }
  }

  lemma {:induction false} SnapsFrom(es: seq<Dependency>, t: string)
    ensures forall s :: s in Snaps(es, t) ==> exists d :: d in es && d.snap == s
  {
    if es != [] {
      SnapsFrom(es[..|es| - 1], t);
      assert es == es[..|es| - 1] + [es[|es| - 1]];
    }
  }

  lemma {:induction false} IncomingNonNegative(ms: map<string, Module>, ps: seq<string>, t: string)
    requires Collect.SnapshotsNonNegative(ms)
    ensures forall s :: s in Incoming(ms, ps, t) ==> NonNegative(s)
  {
    if ps != [] {
      IncomingNonNegative(ms, ps[..|ps| - 1], t);
      var p := ps[|ps| - 1];
      if p in ms {
        SnapsFrom(ms[p].deps, t);
      }
    }
  }

  lemma {:induction false} DebitAllLowers(t: ExportTable, snaps: seq<ExportTable>)
    requires forall s :: s in snaps ==> NonNegative(s)
    ensures Lowered(t, DebitAll(t, snaps))
  {
    if snaps != [] {
      DebitAllLowers(t, snaps[..|snaps| - 1]);
      DebitLowers(DebitAll(t, snaps[..|snaps| - 1]), snaps[|snaps| - 1]);
    }
  }

  /** With non-negative snapshots the sweep only ever lowers the counts of
      the modules it keeps, so it never revives an exhausted one. */
  lemma SweepLowers(ms: map<string, Module>, ps: seq<string>, t: string)
    requires Collect.SnapshotsNonNegative(ms) && NoDuplicates(ps) && t in ms && t !in ps
    ensures t in RemoveAll(ms, ps)
    ensures Lowered(ms[t].table, RemoveAll(ms, ps)[t].table)
    ensures WasNoReferences(ms[t].table) ==> WasNoReferences(RemoveAll(ms, ps)[t].table)
  {
    RemoveAllSurvivor(ms, ps, t);
    IncomingNonNegative(ms, ps, t);
    DebitAllLowers(ms[t].table, Incoming(ms, ps, t));
    if WasNoReferences(ms[t].table) {
      LoweredKeepsExhausted(ms[t].table, RemoveAll(ms, ps)[t].table);
    }
  }

  /** Deleting one more module. */
  lemma RemoveAllStep(ms: map<string, Module>, ps: seq<string>, p: string)
    ensures RemoveAll(ms, ps + [p]) == Remove(RemoveAll(ms, ps), p)
  {
    assert (ps + [p])[..|ps|] == ps;
  }

  /** Debiting non-negative snapshots lowers every table of the graph. */
  lemma DebitEdgesLowers(ms: map<string, Module>, es: seq<Dependency>)
    requires forall d :: d in es ==> NonNegative(d.snap)
    ensures DebitEdges(ms, es).Keys == ms.Keys
    ensures forall t :: t in ms ==> Lowered(ms[t].table, DebitEdges(ms, es)[t].table)
  {
    DebitEdgesEffect(ms, es, "");
    forall t | t in ms
      ensures Lowered(ms[t].table, DebitEdges(ms, es)[t].table)
    {
      DebitEdgesEffect(ms, es, t);
      SnapsFrom(es, t);
      DebitAllLowers(ms[t].table, Snaps(es, t));
    }
  }

  /** Every module of `ps` was in the graph and had no reference left at
      the moment the sweep deleted it. */
  ghost predicate DeletedWhenExhausted(ms: map<string, Module>, ps: seq<string>)
  {
    ps == [] ||
    (&& DeletedWhenExhausted(ms, ps[..|ps| - 1])
     && var before := RemoveAll(ms, ps[..|ps| - 1]);
        ps[|ps| - 1] in before && WasNoReferences(before[ps[|ps| - 1]].table))
  }
}
