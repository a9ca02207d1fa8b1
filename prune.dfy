/**
 * The decision rules of `removeUnUsedExports`
 * (packages/metro-tree-shaking/src/index.js) and the bookkeeping it uses to
 * delete declarators and specifiers one at a time while keeping hold of the
 * ones it has not looked at yet.
 */
module Prune {
  import opened Utils
  import opened ExportTables
  import opened Modules

  /** What the pruner does with one export: keep it, remove it, or stop with
      the TypeError JavaScript raises on a missing lookup. */
  datatype Decision = Keep | Drop | Crash

  // ---------------------------------------------------------------------
  // Declarations: export class / function / var
  // ---------------------------------------------------------------------

  /** `!hasOwnProperty(module.importee.exports, name) &&
      path.scope.bindings[name].references === 1`. A name that no other
      module references and whose only reference is its own declaration is
      dead; reading the binding of a name Babel has no binding for throws. */
  function BindingVerdict(exports: map<string, int>, bindings: map<string, int>, name: string): (r: Decision)
    ensures r == Drop <==> name !in exports && name in bindings && bindings[name] == 1
    ensures r == Crash <==> name !in exports && name !in bindings
    ensures name in exports ==> r == Keep
  {
    if HasOwnProperty(exports, name) then Keep
    else if name !in bindings then Crash
    else if bindings[name] == 1 then Drop
    else Keep
  }

  /** A declarator whose id is not an identifier is left alone. */
  function DeclaratorVerdict(d: Declarator, exports: map<string, int>, bindings: map<string, int>): Decision
  {
    match d
    case Pattern => Keep
    case Named(name) => BindingVerdict(exports, bindings, name)
  }

  // ---------------------------------------------------------------------
  // Positions that survive: the `indexs` array
  // ---------------------------------------------------------------------

  /** `[lo, lo + 1, ..., hi - 1]` */
  function Range(lo: nat, hi: nat): (r: seq<nat>)
    ensures |r| == if lo <= hi then hi - lo else 0
    ensures forall k :: 0 <= k < |r| ==> r[k] == lo + k
    decreases hi - lo
  {
    if lo >= hi then [] else [lo] + Range(lo + 1, hi)
  }

  /** The positions `i` with `kept[i]`, in increasing order. */
  function Positions(kept: seq<bool>): seq<nat>
  {
    if kept == [] then []
    else Positions(kept[..|kept| - 1]) + (if kept[|kept| - 1] then [|kept| - 1] else [])
  }

  lemma {:induction false} PositionsBelow(kept: seq<bool>)
    ensures forall k :: 0 <= k < |Positions(kept)| ==> Positions(kept)[k] < |kept|
    ensures forall j, k :: 0 <= j < k < |Positions(kept)| ==> Positions(kept)[j] < Positions(kept)[k]
  {
    if kept != [] {
      PositionsBelow(kept[..|kept| - 1]);
    }
  }

  /** Every entry of `indexs` is a position of a sequence of length `n`. */
  predicate InRange(indexs: seq<nat>, n: nat)
  {
    forall k :: 0 <= k < |indexs| ==> indexs[k] < n
  }

  /** The items of `orig` at the positions `indexs`. */
  function Project<T>(orig: seq<T>, indexs: seq<nat>): (r: seq<T>)
    requires InRange(indexs, |orig|)
    ensures |r| == |indexs|
  {
    if indexs == [] then [] else Project(orig, indexs[..|indexs| - 1]) + [orig[indexs[|indexs| - 1]]]
  }

  /** Entry `k` of the projection is the item at position `indexs[k]`. */
  lemma {:induction false} ProjectAt<T>(orig: seq<T>, indexs: seq<nat>)
    requires InRange(indexs, |orig|)
    ensures forall k :: 0 <= k < |indexs| ==> Project(orig, indexs)[k] == orig[indexs[k]]
  {
    if indexs != [] {
      ProjectAt(orig, indexs[..|indexs| - 1]);
    }
  }

  /** The items of `orig` whose flag in `kept` is set, in order. */
  function Survivors<T>(orig: seq<T>, kept: seq<bool>): seq<T>
    requires |kept| == |orig|
  {
    if orig == [] then []
    else Survivors(orig[..|orig| - 1], kept[..|kept| - 1]) + (if kept[|kept| - 1] then [orig[|orig| - 1]] else [])
  }

  /** `indexs.findIndex(i => i === index)`: the first position holding
      `index`, or -1. */
  function FindIndex(indexs: seq<nat>, index: nat): (k: int)
    ensures -1 <= k < |indexs|
    ensures k == -1 <==> index !in indexs
    ensures k >= 0 ==> indexs[k] == index && forall j :: 0 <= j < k ==> indexs[j] != index
  {
    if indexs == [] then -1
    else if indexs[0] == index then 0
    else
      var k := FindIndex(indexs[1..], index);
      if k < 0 then -1 else k + 1
  }

  /** The `removeSpecifier` closure and its twin for declarators: find where
      the item originally at `index` now sits among the live ones, remove the
      node there and splice `index` out of `indexs`. When `live` holds the
      original items at the positions `indexs`, the node removed is the one
      originally at `index`, and afterwards `live` still holds the original
      items at the new `indexs`. */
  method SpliceOut<T>(orig: seq<T>, indexs: seq<nat>, live: seq<T>, index: nat)
    returns (indexs': seq<nat>, live': seq<T>)
    requires InRange(indexs, |orig|) && live == Project(orig, indexs)
    requires index in indexs
    ensures InRange(indexs', |orig|) && live' == Project(orig, indexs')
    ensures multiset(live') + multiset{orig[index]} == multiset(live)
    ensures NoDuplicates(indexs) ==> Elements(indexs') == Elements(indexs) - {index}
    ensures var k := FindIndex(indexs, index); indexs' == indexs[..k] + indexs[k + 1..]
  {
    var newIndex := FindIndex(indexs, index);
    indexs' := indexs[..newIndex] + indexs[newIndex + 1..];
    live' := live[..newIndex] + live[newIndex + 1..];
    SpliceProject(orig, indexs, newIndex);
    SpliceMultiset(live, newIndex);
    if NoDuplicates(indexs) {
      SpliceElements(indexs, newIndex);
    }
  }

  lemma SpliceProject<T>(orig: seq<T>, indexs: seq<nat>, k: nat)
    requires InRange(indexs, |orig|) && k < |indexs|
    ensures InRange(indexs[..k] + indexs[k + 1..], |orig|)
    ensures Project(orig, indexs[..k] + indexs[k + 1..]) == Project(orig, indexs)[..k] + Project(orig, indexs)[k + 1..]
    ensures Project(orig, indexs)[k] == orig[indexs[k]]
  {
    var rest := indexs[..k] + indexs[k + 1..];
    ProjectAt(orig, indexs);
    ProjectAt(orig, rest);
    var p := Project(orig, indexs);
    assert Project(orig, rest) == p[..k] + p[k + 1..];
  }

  lemma SpliceMultiset<T>(live: seq<T>, k: nat)
    requires k < |live|
    ensures multiset(live[..k] + live[k + 1..]) + multiset{live[k]} == multiset(live)
  {
    assert live == live[..k] + [live[k]] + live[k + 1..];
  }

  lemma SpliceElements(indexs: seq<nat>, k: nat)
    requires k < |indexs| && NoDuplicates(indexs)
    ensures Elements(indexs[..k] + indexs[k + 1..]) == Elements(indexs) - {indexs[k]}
  {
    var rest := indexs[..k] + indexs[k + 1..];
    forall x ensures x in rest <==> x in indexs && x != indexs[k] {
      if x in rest {
        var j :| 0 <= j < |rest| && rest[j] == x;
        if j < k { assert indexs[j] == x; } else { assert indexs[j + 1] == x; }
      }
      if x in indexs && x != indexs[k] {
        var j :| 0 <= j < |indexs| && indexs[j] == x;
        if j < k { assert rest[j] == x; } else { assert rest[j - 1] == x; }
      }
    }
  }

  /** Where the loop over original positions `index = 0, 1, ...` stands:
      the positions before `index` that were kept, then every position not
      yet looked at. */
  function Pending(kept: seq<bool>, n: nat): seq<nat>
  {
    Positions(kept) + Range(|kept|, n)
  }

  lemma PendingInRange(kept: seq<bool>, n: nat)
    requires |kept| <= n
    ensures InRange(Pending(kept, n), n)
  {
    PositionsBelow(kept);
  }

  /** Keeping position `|kept|` leaves `indexs` as it is. */
  lemma PendingKeep(kept: seq<bool>, n: nat)
    requires |kept| < n
    ensures Pending(kept + [true], n) == Pending(kept, n)
  {
    assert (kept + [true])[..|kept|] == kept;
  }

  /** Removing position `|kept|` splices exactly that entry out of `indexs`,
      and the entry sits right after the kept positions. */
  lemma PendingDrop(kept: seq<bool>, n: nat)
    requires |kept| < n
    ensures |kept| in Pending(kept, n)
    ensures var ix := Pending(kept, n); var k := FindIndex(ix, |kept|);
      k == |Positions(kept)| && Pending(kept + [false], n) == ix[..k] + ix[k + 1..]
  {
    var P := Positions(kept);
    PositionsBelow(kept);
    assert |kept| !in P;
    assert Positions(kept + [false]) == P by {
      assert (kept + [false])[..|kept|] == kept;
    }
    FindAfter(P, Range(|kept|, n), |kept|);
  }

  /** Finding the head of `r` behind a prefix that does not hold it. */
  lemma FindAfter(prefix: seq<nat>, r: seq<nat>, x: nat)
    requires x !in prefix && r != [] && r[0] == x
    ensures FindIndex(prefix + r, x) == |prefix|
    ensures (prefix + r)[..|prefix|] == prefix && (prefix + r)[|prefix| + 1..] == r[1..]
  {
    var ix := prefix + r;
    assert ix[|prefix|] == x;
    assert x in ix;
  }

  lemma {:induction false} ProjectPositions<T>(orig: seq<T>, kept: seq<bool>)
    requires |kept| == |orig|
    ensures InRange(Positions(kept), |orig|)
    ensures Project(orig, Positions(kept)) == Survivors(orig, kept)
  {
    PositionsBelow(kept);
    if kept != [] {
      var n := |kept| - 1;
      ProjectPositions(orig[..n], kept[..n]);
      PositionsBelow(kept[..n]);
      var p := Positions(kept[..n]);
      ProjectAt(orig, p);
      ProjectAt(orig[..n], p);
      assert Project(orig, p) == Project(orig[..n], p);
      if kept[n] {
        assert Positions(kept) == p + [n];
        assert (p + [n])[..|p|] == p;
      } else {
        assert Positions(kept) == p;
      }
    }
  }

  /** When every position has been looked at, the live items are the
      survivors. */
  lemma PendingDone<T>(orig: seq<T>, kept: seq<bool>)
    requires |kept| == |orig|
    ensures Pending(kept, |orig|) == Positions(kept)
    ensures InRange(Positions(kept), |orig|)
    ensures Project(orig, Positions(kept)) == Survivors(orig, kept)
  {
    assert Range(|kept|, |orig|) == [];
    ProjectPositions(orig, kept);
  }

  lemma PendingStart<T>(orig: seq<T>)
    ensures InRange(Pending([], |orig|), |orig|)
    ensures Project(orig, Pending([], |orig|)) == orig
  {
    assert Pending([], |orig|) == Range(0, |orig|);
    ProjectAll(orig);
  }

  lemma ProjectAll<T>(orig: seq<T>)
    ensures InRange(Range(0, |orig|), |orig|)
    ensures Project(orig, Range(0, |orig|)) == orig
  {
    var r := Range(0, |orig|);
    ProjectAt(orig, r);
    var p := Project(orig, r);
    assert forall k :: 0 <= k < |orig| ==> p[k] == orig[k];
  }

  /** The state of a loop over original positions once the flags `kept`
      have been decided: `indexs` lists the kept positions and then every
      position not yet looked at, and `live` holds the original items at
      those positions. */
  ghost predicate Walked<T>(orig: seq<T>, kept: seq<bool>, indexs: seq<nat>, live: seq<T>)
  {
    && |kept| <= |orig|
    && indexs == Pending(kept, |orig|)
    && InRange(indexs, |orig|)
    && live == Project(orig, indexs)
  }

  lemma WalkedStart<T>(orig: seq<T>)
    ensures Walked(orig, [], Range(0, |orig|), orig)
  {
    PendingStart(orig);
  }

  /** When every position has been looked at, the live items are the
      survivors. */
  lemma WalkedDone<T>(orig: seq<T>, kept: seq<bool>, indexs: seq<nat>, live: seq<T>)
    requires Walked(orig, kept, indexs, live) && |kept| == |orig|
    ensures live == Survivors(orig, kept)
  {
    PendingDone(orig, kept);
  }

  /** One turn of the loop over original positions: position `|kept|` is
      removed through `SpliceOut` when `drop` holds and left alone otherwise;
      either way `indexs` and `live` move on to the next position. */
  method Advance<T>(orig: seq<T>, ghost kept: seq<bool>, indexs: seq<nat>, live: seq<T>, index: nat, drop: bool)
    returns (indexs': seq<nat>, live': seq<T>)
    requires index == |kept| < |orig|
    requires Walked(orig, kept, indexs, live)
    ensures Walked(orig, kept + [!drop], indexs', live')
  {
    if drop {
      PendingDrop(kept, |orig|);
      indexs', live' := SpliceOut(orig, indexs, live, index);
    } else {
      PendingKeep(kept, |orig|);
      indexs', live' := indexs, live;
    }
    PendingInRange(kept + [!drop], |orig|);
  }

  /** Survivors never hold an item more often than the original does. */
  lemma {:induction false} SurvivorsShrink<T>(orig: seq<T>, kept: seq<bool>)
    requires |kept| == |orig|
    ensures multiset(Survivors(orig, kept)) <= multiset(orig)
  {
    if orig != [] {
      var n := |orig| - 1;
      SurvivorsShrink(orig[..n], kept[..n]);
      assert orig == orig[..n] + [orig[n]];
    }
  }

  /** Nothing is lost when every flag is set, and something is when one is
      not. */
  lemma {:induction false} SurvivorsLength<T>(orig: seq<T>, kept: seq<bool>)
    requires |kept| == |orig|
    ensures |Survivors(orig, kept)| <= |orig|
    ensures (forall i :: 0 <= i < |kept| ==> kept[i]) ==> Survivors(orig, kept) == orig
    ensures (exists i :: 0 <= i < |kept| && !kept[i]) ==> |Survivors(orig, kept)| < |orig|
  {
    if orig != [] {
      var n := |orig| - 1;
      SurvivorsLength(orig[..n], kept[..n]);
      assert orig == orig[..n] + [orig[n]];
      if exists i :: 0 <= i < n && !kept[i] {
        var i :| 0 <= i < n && !kept[i];
        assert !kept[..n][i];
      }
    }
  }

  lemma {:induction false} SurvivorsHas<T>(orig: seq<T>, kept: seq<bool>, i: nat)
    requires |kept| == |orig| && i < |orig| && kept[i]
    ensures orig[i] in Survivors(orig, kept)
  {
    var n := |orig| - 1;
    if i < n {
      SurvivorsHas(orig[..n], kept[..n], i);
    }
  }

  // ---------------------------------------------------------------------
  // export var a = ..., b = ...;
  // ---------------------------------------------------------------------

  /** Which declarators survive: all but the dead identifiers. */
  function DeclaratorsKept(decls: seq<Declarator>, exports: map<string, int>, bindings: map<string, int>): (kept: seq<bool>)
    ensures |kept| == |decls|
    ensures forall i :: 0 <= i < |decls| ==> kept[i] == (DeclaratorVerdict(decls[i], exports, bindings) != Drop)
  {
    seq(|decls|, i requires 0 <= i < |decls| => DeclaratorVerdict(decls[i], exports, bindings) != Drop)
  }

  /** The verdict on `d` is reached without a TypeError. */
  predicate Resolvable(d: Declarator, exports: map<string, int>, bindings: map<string, int>)
  {
    DeclaratorVerdict(d, exports, bindings) != Crash
  }

  /** That is: `d` is a pattern, or its name is exported, or Babel has a
      binding for it. */
  lemma ResolvableExactly(d: Declarator, exports: map<string, int>, bindings: map<string, int>)
    ensures Resolvable(d, exports, bindings) <==> d.Pattern? || d.name in exports || d.name in bindings
  {
  }

  lemma PrefixStep<T>(s: seq<T>, i: nat)
    requires i < |s|
    ensures s[..i + 1] == s[..i] + [s[i]]
  {
  }

  /** The declarator loop of the `VariableDeclaration` branch: walk the
      original declarators by position and remove every dead identifier
      through `SpliceOut`. `ok` is false when a name without a Babel binding
      is reached. */
  method PruneDeclarators(decls: seq<Declarator>, exports: map<string, int>, bindings: map<string, int>)
    returns (ok: bool, live: seq<Declarator>)
    ensures ok <==> forall d :: d in decls ==> Resolvable(d, exports, bindings)
    ensures ok ==> live == Survivors(decls, DeclaratorsKept(decls, exports, bindings))
  {
    ghost var kept := DeclaratorsKept(decls, exports, bindings);
    var indexs := Range(0, |decls|);
    live := decls;
    WalkedStart(decls);
    for index := 0 to |decls|
      invariant forall d :: d in decls[..index] ==> Resolvable(d, exports, bindings)
      invariant Walked(decls, kept[..index], indexs, live)
    {
      var verdict := DeclaratorVerdict(decls[index], exports, bindings);
      if verdict == Crash {
        assert decls[index] in decls && !Resolvable(decls[index], exports, bindings);
        return false, live;
      }
      PrefixStep(decls, index);
      PrefixStep(kept, index);
      indexs, live := Advance(decls, kept[..index], indexs, live, index, verdict == Drop);
    }
    assert kept[..|decls|] == kept;
    assert decls[..|decls|] == decls;
    WalkedDone(decls, kept, indexs, live);
    ok := true;
  }

  /** A declarator whose name another module references is never removed. */
  lemma ReferencedDeclaratorSurvives(decls: seq<Declarator>, exports: map<string, int>, bindings: map<string, int>, i: nat)
    requires i < |decls| && decls[i].Named? && decls[i].name in exports
    ensures decls[i] in Survivors(decls, DeclaratorsKept(decls, exports, bindings))
  {
    SurvivorsHas(decls, DeclaratorsKept(decls, exports, bindings), i);
  }

  // ---------------------------------------------------------------------
  // export { ... } [from '...']
  // ---------------------------------------------------------------------

  /** What the pruner does with one specifier, and to which module's table. */
  datatype Action =
    | Retain                                          // left in place
    | RemoveLocal                                     // `export { a }` with no source
    | RemoveDefaultForward(target: string)            // `export { default [as B] } from 'x'`
    | RemoveNamedForward(target: string, name: string) // `export { a [as b] } from 'x'`
    | Throw                                           // a lookup JavaScript cannot complete

  /** `!source`: an absent source and the empty string both read as none. */
  predicate NoSource(source: Option<string>)
  {
    source.None? || source.value == ""
  }

  /** The binding lookup that removing `export { local as exported }` (no
      source) starts with, as written: the binding read is the one of the
      EXPORTED name, and reading a binding Babel does not have throws. */
  function LocalSpecifierAsWritten(bindings: map<string, int>, s: Specifier): (r: Decision)
    ensures r != Keep
    ensures r == Crash <==> s.exported !in bindings
  {
    if s.exported in bindings then Drop else Crash
  }

  /** The same lookup as evidently intended: the binding of the LOCAL name,
      which is the one the module declares or imports. */
  function LocalSpecifier(bindings: map<string, int>, s: Specifier): (r: Decision)
    ensures r != Keep
    ensures r == Crash <==> LocalName(s) !in bindings
  {
    if LocalName(s) in bindings then Drop else Crash
  }

  /** `export { a as b }` in a module that declares `a` but no `b`: the
      lookup as written throws, the intended one removes the specifier. */
  lemma AliasedLocalExportThrows()
    ensures var s := ExportSpecifier("a", "b");
      && LocalSpecifierAsWritten(map["a" := 1], s) == Crash
      && LocalSpecifier(map["a" := 1], s) == Drop
  {
  }

  /** Without an alias the two lookups agree. */
  lemma LocalSpecifierUnaliased(bindings: map<string, int>, s: Specifier)
    requires s.ExportSpecifier? && s.local == s.exported
    ensures LocalSpecifierAsWritten(bindings, s) == LocalSpecifier(bindings, s)
  {
  }

  /** The specifier branch of the `ExportNamedDeclaration` visitor for module
      `p`, whose dependencies were copied into `copyDeps` before its tree was
      walked. */
  function SpecifierAction(ms: map<string, Module>, p: string, copyDeps: seq<Dependency>,
                           source: Option<string>, s: Specifier): (r: Action)
    requires p in ms
    ensures s.exported in ms[p].table.exports ==> r == Retain
    ensures r == RemoveLocal <==>
      s.exported !in ms[p].table.exports && NoSource(source) && LocalName(s) in ms[p].bindings
    ensures r.RemoveDefaultForward? || r.RemoveNamedForward? ==> !NoSource(source)
    ensures r.RemoveDefaultForward? ==>
      && LocalName(s) == "default" && r.target in ms
      && (s.exported != "default" || ms[p].table.def == 0)
      && Lookup(copyDeps, source.value).Some? && Lookup(copyDeps, source.value).value.target == r.target
    ensures r.RemoveNamedForward? ==>
      && r.name == LocalName(s) != "default" && r.target in ms && r.name in ms[r.target].table.exports
      && Lookup(copyDeps, source.value).Some? && Lookup(copyDeps, source.value).value.target == r.target
    ensures r == Throw <==>
      && s.exported !in ms[p].table.exports
      && (NoSource(source) ==> LocalName(s) !in ms[p].bindings)
      && (!NoSource(source) ==>
            || Lookup(copyDeps, source.value).None?
            || (&& Lookup(copyDeps, source.value).value.target in ms
                && LocalName(s) != "default"
                && LocalName(s) !in ms[Lookup(copyDeps, source.value).value.target].table.exports))
  {
    if HasOwnProperty(ms[p].table.exports, s.exported) then Retain
    else if NoSource(source) then
      if LocalSpecifier(ms[p].bindings, s) == Crash then Throw else RemoveLocal
    else
      match Lookup(copyDeps, source.value)
      case None => Throw
      case Some(d) =>
        if d.target !in ms then Retain
        else if LocalName(s) == "default" then
          if (s.exported == "default" && ms[p].table.def == 0) || s.exported != "default"
          then RemoveDefaultForward(d.target)
          else Retain
        else if HasOwnProperty(ms[d.target].table.exports, LocalName(s))
        then RemoveNamedForward(d.target, LocalName(s))
        else Throw
  }

  /** A forward to a module that is no longer in the graph is left alone. */
  lemma ForwardToMissingTargetRetained(ms: map<string, Module>, p: string, copyDeps: seq<Dependency>,
                                       source: Option<string>, s: Specifier)
    requires p in ms && s.exported !in ms[p].table.exports && !NoSource(source)
    requires Lookup(copyDeps, source.value).Some? && Lookup(copyDeps, source.value).value.target !in ms
    ensures SpecifierAction(ms, p, copyDeps, source, s) == Retain
  {
  }

  /** The default forward `export { default } from 'x'` goes only when the
      module's own default export is unreferenced; the renamed form
      `export { default as B } from 'x'` goes whenever `B` is unreferenced. */
  lemma DefaultForwardRule(ms: map<string, Module>, p: string, copyDeps: seq<Dependency>,
                           source: Option<string>, s: Specifier)
    requires p in ms && LocalName(s) == "default" && s.exported !in ms[p].table.exports && !NoSource(source)
    requires Lookup(copyDeps, source.value).Some? && Lookup(copyDeps, source.value).value.target in ms
    ensures SpecifierAction(ms, p, copyDeps, source, s).RemoveDefaultForward? <==>
      s.exported != "default" || ms[p].table.def == 0
  {
  }

  /** A named forward `export { a [as b] } from 'x'` to a module still in the
      graph goes, with the target's count for `a` lowered, exactly when the
      target has an entry for `a`; without one, reading its count throws. */
  lemma NamedForwardRule(ms: map<string, Module>, p: string, copyDeps: seq<Dependency>,
                         source: Option<string>, s: Specifier)
    requires p in ms && LocalName(s) != "default" && s.exported !in ms[p].table.exports && !NoSource(source)
    requires Lookup(copyDeps, source.value).Some? && Lookup(copyDeps, source.value).value.target in ms
    ensures var t := Lookup(copyDeps, source.value).value.target;
      SpecifierAction(ms, p, copyDeps, source, s) ==
        if LocalName(s) in ms[t].table.exports then RemoveNamedForward(t, LocalName(s)) else Throw
  {
  }

  /** The graph after the pruner acts on one specifier of module `p`. */
  function ApplyAction(ms: map<string, Module>, p: string, source: Option<string>, a: Action): (r: map<string, Module>)
    requires p in ms
    requires a.RemoveDefaultForward? ==> a.target in ms && source.Some?
    requires a.RemoveNamedForward? ==> a.target in ms && a.name in ms[a.target].table.exports
    ensures r.Keys == ms.Keys
    ensures !a.RemoveNamedForward? && !a.RemoveDefaultForward? ==> r == ms
  {
    match a
    case RemoveDefaultForward(t) => DropDefaultForward(ms, p, t, source.value)
    case RemoveNamedForward(t, name) => DropNamedForward(ms, t, name)
    case _ => ms
  }

  /** Removing `export { default [as B] } from source` in module `p`, which
      resolves to `t`: `t`'s default count goes down by one, the edge keyed
      by `source` goes when that leaves `t` exhausted, and the interop-helper
      edge goes unless an `ImportDefaultSpecifier` was found. Nothing else
      changes. */
  function DropDefaultForward(ms: map<string, Module>, p: string, t: string, source: string): (r: map<string, Module>)
    requires p in ms && t in ms
    ensures r.Keys == ms.Keys
    ensures r[t].table == ms[t].table.(def := ms[t].table.def - 1)
    ensures forall q :: q in ms && q != p && q != t ==> r[q] == ms[q]
    ensures r[p] == ms[p].(table := r[p].table, deps := r[p].deps)
    ensures forall d :: d in r[p].deps <==>
      && d in ms[p].deps
      && !(d.source == source && WasNoReferences(r[t].table))
      && !(d.source == InteropHelper && !ms[p].defaultImportFound)
  {
    var ms1 := DebitDefault(ms, t);
    var ms2 := if WasNoReferences(ms1[t].table) then DropEdges(ms1, p, source) else ms1;
    if !ms2[p].defaultImportFound then DropEdges(ms2, p, InteropHelper) else ms2
  }

  /** `t`'s default count goes down by one. */
  function DebitDefault(ms: map<string, Module>, t: string): map<string, Module>
    requires t in ms
  {
    ms[t := ms[t].(table := ms[t].table.(def := ms[t].table.def - 1))]
  }

  /** `module.dependencies.delete(source)` on module `p` of the graph. */
  function DropEdges(ms: map<string, Module>, p: string, source: string): map<string, Module>
    requires p in ms
  {
    ms[p := ms[p].(deps := DeleteSource(ms[p].deps, source))]
  }

  /** Removing `export { name [as B] } from '...'`, which resolves to `t`:
      `t`'s count for `name` goes down by one and nothing else changes. */
  function DropNamedForward(ms: map<string, Module>, t: string, name: string): (r: map<string, Module>)
    requires t in ms && name in ms[t].table.exports
    ensures r.Keys == ms.Keys
    ensures forall q :: q in ms && q != t ==> r[q] == ms[q]
    ensures r[t] == ms[t].(table := r[t].table)
    ensures r[t].table.def == ms[t].table.def && r[t].table.all == ms[t].table.all
    ensures r[t].table.exports == ms[t].table.exports[name := ms[t].table.exports[name] - 1]
  {
    var e := ms[t].table.exports;
    ms[t := ms[t].(table := ms[t].table.(exports := e[name := e[name] - 1]))]
  }

  /** Everything but tables and `p`'s edges is the same in `after` as in
      `before`; no count rises and no table gains or loses a key; `p` only
      loses edges. */
  ghost predicate CountsAndEdges(before: map<string, Module>, after: map<string, Module>, p: string)
  {
    && after.Keys == before.Keys
    && forall q :: q in before ==>
         && after[q] == before[q].(table := after[q].table, deps := after[q].deps)
         && Lowered(before[q].table, after[q].table)
         && (q != p ==> after[q].deps == before[q].deps)
         && (forall d :: d in after[q].deps ==> d in before[q].deps)
  }

  lemma CountsAndEdgesReflexive(ms: map<string, Module>, p: string)
    ensures CountsAndEdges(ms, ms, p)
  {
  }

  lemma CountsAndEdgesTransitive(a: map<string, Module>, b: map<string, Module>, c: map<string, Module>, p: string)
    requires CountsAndEdges(a, b, p) && CountsAndEdges(b, c, p)
    ensures CountsAndEdges(a, c, p)
  {
  }

  /** Acting on a specifier touches only counts and `p`'s own edges. */
  lemma ApplyActionFrame(ms: map<string, Module>, p: string, source: Option<string>, a: Action)
    requires p in ms
    requires a.RemoveDefaultForward? ==> a.target in ms && source.Some?
    requires a.RemoveNamedForward? ==> a.target in ms && a.name in ms[a.target].table.exports
    ensures CountsAndEdges(ms, ApplyAction(ms, p, source, a), p)
  {
    match a
    case RemoveDefaultForward(t) => DropDefaultForwardFrame(ms, p, t, source.value);
    case RemoveNamedForward(t, name) => DropNamedForwardFrame(ms, p, t, name);
    case _ =>
  }

  lemma DropDefaultForwardFrame(ms: map<string, Module>, p: string, t: string, source: string)
    requires p in ms && t in ms
    ensures CountsAndEdges(ms, DropDefaultForward(ms, p, t, source), p)
  {
    var ms1 := DebitDefault(ms, t);
    DebitDefaultFrame(ms, t, p);
    var ms2 := if WasNoReferences(ms1[t].table) then DropEdges(ms1, p, source) else ms1;
    if WasNoReferences(ms1[t].table) {
      DeleteSourceFrame(ms1, p, source);
      CountsAndEdgesTransitive(ms, ms1, ms2, p);
    }
    var r := if !ms2[p].defaultImportFound then DropEdges(ms2, p, InteropHelper) else ms2;
    if !ms2[p].defaultImportFound {
      DeleteSourceFrame(ms2, p, InteropHelper);
      CountsAndEdgesTransitive(ms, ms2, r, p);
    }
  }

  lemma DebitDefaultFrame(ms: map<string, Module>, t: string, p: string)
    requires t in ms
    ensures CountsAndEdges(ms, DebitDefault(ms, t), p)
  {
  }

  /** Deleting edges of `p` by source is inside the frame. */
  lemma DeleteSourceFrame(ms: map<string, Module>, p: string, source: string)
    requires p in ms
    ensures CountsAndEdges(ms, DropEdges(ms, p, source), p)
  {
  }

  lemma DropNamedForwardFrame(ms: map<string, Module>, p: string, t: string, name: string)
    requires t in ms && name in ms[t].table.exports
    ensures CountsAndEdges(ms, DropNamedForward(ms, t, name), p)
  {
  }

  // ---------------------------------------------------------------------
  // The walk over one module's export statements
  // ---------------------------------------------------------------------

  /** Where the walk over one statement's specifiers stands: the graph and
      which specifiers were kept so far, or the TypeError that ended it. */
  datatype SpecifierWalk = SpecifierWalk(ms: map<string, Module>, kept: seq<bool>) | SpecifierThrew

  /** The `forEach` over the specifiers of one `export { ... }` statement of
      module `p`, taken in order: each specifier's action is decided on the
      graph as the earlier ones left it. */
  function SpecifiersWalk(ms: map<string, Module>, p: string, copyDeps: seq<Dependency>,
                          source: Option<string>, specs: seq<Specifier>): (r: SpecifierWalk)
    requires p in ms
    ensures r.SpecifierWalk? ==> r.ms.Keys == ms.Keys && |r.kept| == |specs|
  {
    if specs == [] then SpecifierWalk(ms, [])
    else
      match SpecifiersWalk(ms, p, copyDeps, source, specs[..|specs| - 1])
      case SpecifierThrew => SpecifierThrew
      case SpecifierWalk(ms', kept) =>
        var a := SpecifierAction(ms', p, copyDeps, source, specs[|specs| - 1]);
        if a == Throw then SpecifierThrew
        else SpecifierWalk(ApplyAction(ms', p, source, a), kept + [a == Retain])
  }

  /** Where the walk over a module's export statements stands: the graph,
      the statements that remain, and whether any statement was changed
      (`traverseState.changed`); or the TypeError that ended it. */
  datatype ItemWalk = ItemWalk(ms: map<string, Module>, items: seq<ExportItem>, changed: bool) | ItemThrew

  /** A statement whose list lost the entries whose flag in `kept` is
      false: unchanged when none was lost, removed when all were (and there
      was at least one), `rebuilt` otherwise. */
  function Trimmed(ms: map<string, Module>, item: ExportItem, kept: seq<bool>, rebuilt: ExportItem): ItemWalk
  {
    if false !in kept then ItemWalk(ms, [item], false)
    else if true !in kept then ItemWalk(ms, [], true)
    else ItemWalk(ms, [rebuilt], true)
  }

  /** The visitor on one export statement of module `p`. `noForwarded` is
      whether the module forwards no names, as read before the walk. */
  function StepItem(ms: map<string, Module>, p: string, copyDeps: seq<Dependency>,
                    noForwarded: bool, item: ExportItem): (r: ItemWalk)
    requires p in ms
    ensures r.ItemWalk? ==> r.ms.Keys == ms.Keys && |r.items| <= 1
  {
    var m := ms[p];
    match item
    case ClassOrFunction(name) =>
      (match BindingVerdict(m.table.exports, m.bindings, name)
       case Crash => ItemThrew
       case Drop => ItemWalk(ms, [], true)
       case Keep => ItemWalk(ms, [item], false))
    case VarDecl(decls) => VarDeclStep(ms, p, decls)
    case Specifiers(source, specs) => SpecifiersStep(ms, p, copyDeps, source, specs)
    case DefaultExpr =>
      if m.table.def == 0 then ItemWalk(ms, [], true) else ItemWalk(ms, [item], false)
    case ExportAll(_) =>
      if noForwarded then ItemWalk(ms, [], true) else ItemWalk(ms, [item], false)
  }

  /** The visitor on `export var ...` in module `p`. */
  function VarDeclStep(ms: map<string, Module>, p: string, decls: seq<Declarator>): (r: ItemWalk)
    requires p in ms
    ensures r.ItemWalk? ==> r.ms.Keys == ms.Keys && |r.items| <= 1
  {
    var m := ms[p];
    if exists d :: d in decls && !Resolvable(d, m.table.exports, m.bindings) then ItemThrew
    else
      var kept := DeclaratorsKept(decls, m.table.exports, m.bindings);
      Trimmed(ms, VarDecl(decls), kept, VarDecl(Survivors(decls, kept)))
  }

  /** The visitor on `export { ... } [from source]` in module `p`. */
  function SpecifiersStep(ms: map<string, Module>, p: string, copyDeps: seq<Dependency>,
                          source: Option<string>, specs: seq<Specifier>): (r: ItemWalk)
    requires p in ms
    ensures r.ItemWalk? ==> r.ms.Keys == ms.Keys && |r.items| <= 1
  {
    match SpecifiersWalk(ms, p, copyDeps, source, specs)
    case SpecifierThrew => ItemThrew
    case SpecifierWalk(ms', kept) => Trimmed(ms', Specifiers(source, specs), kept, Specifiers(source, Survivors(specs, kept)))
  }

  /** `traverse(module.sourceAst, visitor)`: the export statements of `p` in
      program order. */
  function ItemsWalk(ms: map<string, Module>, p: string, copyDeps: seq<Dependency>,
                     noForwarded: bool, items: seq<ExportItem>): (r: ItemWalk)
    requires p in ms
    ensures r.ItemWalk? ==> r.ms.Keys == ms.Keys
  {
    if items == [] then ItemWalk(ms, [], false)
    else
      match ItemsWalk(ms, p, copyDeps, noForwarded, items[..|items| - 1])
      case ItemThrew => ItemThrew
      case ItemWalk(ms', out, changed) =>
        match StepItem(ms', p, copyDeps, noForwarded, items[|items| - 1])
        case ItemThrew => ItemThrew
        case ItemWalk(ms'', last, c) => ItemWalk(ms'', out + last, changed || c)
  }

  /** One iteration of `removeUnUsedExports` for a module `p` that is not
      ignored: its forwarded names and its dependencies are read first, its
      statements are walked, and its output is regenerated from the
      remaining statements when one was changed. None for a TypeError. */
  function Pruned(ms: map<string, Module>, p: string, regenerate: (string, seq<ExportItem>) -> string)
    : (r: Option<map<string, Module>>)
    requires p in ms
    ensures r.Some? ==> r.value.Keys == ms.Keys
  {
    var m := ms[p];
    match ItemsWalk(ms, p, m.deps, Forwarded(m) == {}, m.items)
    case ItemThrew => None
    case ItemWalk(ms', items, changed) =>
      var m' := ms'[p].(items := items);
      Some(ms'[p := if changed then m'.(output := regenerate(p, items)) else m'])
  }

  /** `removeUnUsedExports` over the modules `ps`, in order. */
  function PrunedAll(ms: map<string, Module>, ps: seq<string>, regenerate: (string, seq<ExportItem>) -> string)
    : (r: Option<map<string, Module>>)
    ensures r.Some? ==> r.value.Keys == ms.Keys
  {
    if ps == [] then Some(ms)
    else
      match PrunedAll(ms, ps[..|ps| - 1], regenerate)
      case None => None
      case Some(ms') =>
        if ps[|ps| - 1] in ms' then Pruned(ms', ps[|ps| - 1], regenerate) else Some(ms')
  }

  // ---------------------------------------------------------------------
  // What the walk may change
  // ---------------------------------------------------------------------

  lemma {:induction false} SpecifiersWalkFrame(ms: map<string, Module>, p: string, copyDeps: seq<Dependency>,
                                               source: Option<string>, specs: seq<Specifier>)
    requires p in ms
    ensures var r := SpecifiersWalk(ms, p, copyDeps, source, specs);
      r.SpecifierWalk? ==> CountsAndEdges(ms, r.ms, p)
  {
    if specs != [] {
      var w := SpecifiersWalk(ms, p, copyDeps, source, specs[..|specs| - 1]);
      SpecifiersWalkFrame(ms, p, copyDeps, source, specs[..|specs| - 1]);
      if w.SpecifierWalk? {
        var a := SpecifierAction(w.ms, p, copyDeps, source, specs[|specs| - 1]);
        if a != Throw {
          ApplyActionFrame(w.ms, p, source, a);
          CountsAndEdgesTransitive(ms, w.ms, ApplyAction(w.ms, p, source, a), p);
        }
      }
    }
  }

  lemma StepItemFrame(ms: map<string, Module>, p: string, copyDeps: seq<Dependency>,
                      noForwarded: bool, item: ExportItem)
    requires p in ms
    ensures var r := StepItem(ms, p, copyDeps, noForwarded, item);
      r.ItemWalk? ==> CountsAndEdges(ms, r.ms, p)
  {
    if item.Specifiers? {
      SpecifiersWalkFrame(ms, p, copyDeps, item.source, item.specifiers);
    } else {
      CountsAndEdgesReflexive(ms, p);
    }
  }

  lemma {:induction false} ItemsWalkFrame(ms: map<string, Module>, p: string, copyDeps: seq<Dependency>,
                                          noForwarded: bool, items: seq<ExportItem>)
    requires p in ms
    ensures var r := ItemsWalk(ms, p, copyDeps, noForwarded, items);
      r.ItemWalk? ==> CountsAndEdges(ms, r.ms, p)
  {
    if items == [] {
      CountsAndEdgesReflexive(ms, p);
    } else {
      var w := ItemsWalk(ms, p, copyDeps, noForwarded, items[..|items| - 1]);
      ItemsWalkFrame(ms, p, copyDeps, noForwarded, items[..|items| - 1]);
      if w.ItemWalk? {
        var r := StepItem(w.ms, p, copyDeps, noForwarded, items[|items| - 1]);
        StepItemFrame(w.ms, p, copyDeps, noForwarded, items[|items| - 1]);
        if r.ItemWalk? {
          CountsAndEdgesTransitive(ms, w.ms, r.ms, p);
        }
      }
    }
  }

  /** `after` is `before` with no count raised, no table key added or
      removed, edges removed only from modules of `ps`, and statements and
      outputs changed only for modules of `ps`. */
  ghost predicate PruneFrame(before: map<string, Module>, after: map<string, Module>, ps: set<string>)
  {
    && after.Keys == before.Keys
    && forall q :: q in before ==>
         && after[q].namedExports == before[q].namedExports
         && after[q].bindings == before[q].bindings
         && after[q].defaultImportFound == before[q].defaultImportFound
         && Lowered(before[q].table, after[q].table)
         && (forall d :: d in after[q].deps ==> d in before[q].deps)
         && (q !in ps ==> && after[q].deps == before[q].deps
                          && after[q].items == before[q].items
                          && after[q].output == before[q].output)
  }

  lemma PruneFrameTransitive(a: map<string, Module>, b: map<string, Module>, c: map<string, Module>,
                             ps: set<string>, qs: set<string>)
    requires PruneFrame(a, b, ps) && PruneFrame(b, c, qs)
    ensures PruneFrame(a, c, ps + qs)
  {
  }

  /** Pruning module `p` lowers counts, removes only `p`'s edges and
      rewrites only `p`'s statements and output. */
  lemma PrunedFrame(ms: map<string, Module>, p: string, regenerate: (string, seq<ExportItem>) -> string)
    requires p in ms
    ensures var r := Pruned(ms, p, regenerate); r.Some? ==> PruneFrame(ms, r.value, {p})
  {
    var w := ItemsWalk(ms, p, ms[p].deps, Forwarded(ms[p]) == {}, ms[p].items);
    ItemsWalkFrame(ms, p, ms[p].deps, Forwarded(ms[p]) == {}, ms[p].items);
    if w.ItemWalk? {
      var m' := w.ms[p].(items := w.items);
      var out := if w.changed then m'.(output := regenerate(p, w.items)) else m';
      assert out == w.ms[p].(items := out.items, output := out.output);
      assert Pruned(ms, p, regenerate) == Some(w.ms[p := out]);
      CountsAndEdgesPruneFrame(ms, w.ms, p);
      RewrittenPruneFrame(w.ms, p, out);
      PruneFrameTransitive(ms, w.ms, w.ms[p := out], {p}, {p});
      assert {p} + {p} == {p};
    }
  }

  lemma CountsAndEdgesPruneFrame(before: map<string, Module>, after: map<string, Module>, p: string)
    requires CountsAndEdges(before, after, p)
    ensures PruneFrame(before, after, {p})
  {
  }

  /** Rewriting a module's statements and output is inside the frame. */
  lemma RewrittenPruneFrame(ms: map<string, Module>, p: string, out: Module)
    requires p in ms && out == ms[p].(items := out.items, output := out.output)
    ensures PruneFrame(ms, ms[p := out], {p})
  {
  }

  /** The whole pruning pass over `ps` never raises a count and never
      touches the edges, statements or output of a module outside `ps`. */
  lemma {:induction false} PrunedAllFrame(ms: map<string, Module>, ps: seq<string>,
                                          regenerate: (string, seq<ExportItem>) -> string)
    ensures var r := PrunedAll(ms, ps, regenerate); r.Some? ==> PruneFrame(ms, r.value, Elements(ps))
  {
    if ps == [] {
      assert PruneFrame(ms, ms, {});
    } else {
      var init := ps[..|ps| - 1];
      var last := ps[|ps| - 1];
      assert Elements(ps) == Elements(init) + {last} by {
        assert ps == init + [last];
      }
      PrunedAllFrame(ms, init, regenerate);
      var w := PrunedAll(ms, init, regenerate);
      if w.Some? {
        if last in w.value {
          PrunedFrame(w.value, last, regenerate);
          var r := Pruned(w.value, last, regenerate);
          if r.Some? {
            PruneFrameTransitive(ms, w.value, r.value, Elements(init), {last});
          }
        } else {
          PruneFrameTransitive(ms, w.value, w.value, Elements(init), {last});
        }
      }
    }
  }

  // ---------------------------------------------------------------------
  // Statements and the `changed` flag
  // ---------------------------------------------------------------------

  lemma TrimmedAlters<T>(list: seq<T>, kept: seq<bool>)
    requires |kept| == |list| && false in kept
    ensures Survivors(list, kept) != list
  {
    var i :| 0 <= i < |kept| && !kept[i];
    SurvivorsLength(list, kept);
  }

  /** One statement is reported changed exactly when the visitor altered or
      removed it. */
  lemma StepChangedExactly(ms: map<string, Module>, p: string, copyDeps: seq<Dependency>,
                           noForwarded: bool, item: ExportItem)
    requires p in ms
    ensures var r := StepItem(ms, p, copyDeps, noForwarded, item);
      r.ItemWalk? ==> (r.changed <==> r.items != [item])
  {
    var m := ms[p];
    match item
    case VarDecl(decls) =>
      var kept := DeclaratorsKept(decls, m.table.exports, m.bindings);
      if false in kept {
        TrimmedAlters(decls, kept);
      }
    case Specifiers(source, specs) =>
      var w := SpecifiersWalk(ms, p, copyDeps, source, specs);
      if w.SpecifierWalk? && false in w.kept {
        TrimmedAlters(specs, w.kept);
      }
    case _ =>
  }

  /** `traverseState.changed` ends true exactly when the module's export
      statements are no longer what they were, and the walk never adds a
      statement. */
  lemma {:induction false} ChangedExactly(ms: map<string, Module>, p: string, copyDeps: seq<Dependency>,
                                          noForwarded: bool, items: seq<ExportItem>)
    requires p in ms
    ensures var r := ItemsWalk(ms, p, copyDeps, noForwarded, items);
      r.ItemWalk? ==> |r.items| <= |items| && (r.changed <==> r.items != items)
  {
    if items != [] {
      var init := items[..|items| - 1];
      var x := items[|items| - 1];
      var w := ItemsWalk(ms, p, copyDeps, noForwarded, init);
      ChangedExactly(ms, p, copyDeps, noForwarded, init);
      if w.ItemWalk? {
        var r := StepItem(w.ms, p, copyDeps, noForwarded, x);
        StepChangedExactly(w.ms, p, copyDeps, noForwarded, x);
        if r.ItemWalk? {
          LastSplit(items);
          ChangedConcat(init, x, w.items, r.items, w.changed, r.changed);
        }
      }
    }
  }

  /** The `changed` flag of a walk extended by one statement. */
  lemma ChangedConcat<T>(init: seq<T>, x: T, out: seq<T>, last: seq<T>, changed: bool, c: bool)
    requires |out| <= |init| && (changed <==> out != init)
    requires |last| <= 1 && (c <==> last != [x])
    ensures |out + last| <= |init + [x]|
    ensures (changed || c) <==> out + last != init + [x]
  {
    if out != init && |out| == |init| && |last| == 1 {
      assert (out + last)[..|init|] == out;
      assert (init + [x])[..|init|] == init;
    }
    if out == init && last != [x] && |last| == 1 {
      assert (out + last)[|init|] == last[0];
    }
  }

  // ---------------------------------------------------------------------
  // The visitor's rules, statement by statement
  // ---------------------------------------------------------------------

  /** `export class C {}` / `export function f() {}` goes exactly when no
      other module references the name and its only reference is its own
      declaration; a name without a Babel binding throws. */
  lemma DeclarationRule(ms: map<string, Module>, p: string, copyDeps: seq<Dependency>,
                        noForwarded: bool, name: string)
    requires p in ms
    ensures var m := ms[p]; var r := StepItem(ms, p, copyDeps, noForwarded, ClassOrFunction(name));
      && (r.ItemThrew? <==> name !in m.table.exports && name !in m.bindings)
      && (r.ItemWalk? ==> r.ms == ms)
      && (r.ItemWalk? ==> (r.items == [] <==> name !in m.table.exports && m.bindings[name] == 1))
  {
  }

  /** `export default <expr>` goes exactly when the module's default count
      is 0. */
  lemma DefaultExportRule(ms: map<string, Module>, p: string, copyDeps: seq<Dependency>, noForwarded: bool)
    requires p in ms
    ensures var r := StepItem(ms, p, copyDeps, noForwarded, DefaultExpr);
      r.ItemWalk? && r.ms == ms && (r.items == [] <==> ms[p].table.def == 0)
  {
  }

  /** `export * from '...'` goes exactly when the module forwards no names. */
  lemma ExportAllRule(ms: map<string, Module>, p: string, copyDeps: seq<Dependency>, noForwarded: bool, from: string)
    requires p in ms
    ensures var r := StepItem(ms, p, copyDeps, noForwarded, ExportAll(from));
      r.ItemWalk? && r.ms == ms && (r.items == [] <==> noForwarded)
  {
  }

  lemma TrimmedRule(ms: map<string, Module>, item: ExportItem, kept: seq<bool>, rebuilt: ExportItem)
    requires false !in kept ==> rebuilt == item
    ensures var r := Trimmed(ms, item, kept, rebuilt);
      && r.ItemWalk? && r.ms == ms
      && (r.items == [] <==> kept != [] && forall i :: 0 <= i < |kept| ==> !kept[i])
      && (r.items != [] ==> r.items == [rebuilt])
  {
    if kept != [] && forall i :: 0 <= i < |kept| ==> !kept[i] {
      assert !kept[0];
    }
  }

  /** `export var ...` keeps its surviving declarators in order and goes
      when it had some and lost them all; it throws exactly when a
      declarator's name has neither an export entry nor a binding. */
  lemma VarDeclRule(ms: map<string, Module>, p: string, copyDeps: seq<Dependency>,
                    noForwarded: bool, decls: seq<Declarator>)
    requires p in ms
    ensures var m := ms[p]; var r := StepItem(ms, p, copyDeps, noForwarded, VarDecl(decls));
      var kept := DeclaratorsKept(decls, m.table.exports, m.bindings);
      && (r.ItemWalk? <==> forall d :: d in decls ==> Resolvable(d, m.table.exports, m.bindings))
      && (r.ItemWalk? ==> r.ms == ms)
      && (r.ItemWalk? ==> (r.items == [] <==> decls != [] && forall i :: 0 <= i < |decls| ==> !kept[i]))
      && (r.ItemWalk? && r.items != [] ==> r.items == [VarDecl(Survivors(decls, kept))])
  {
    var m := ms[p];
    var kept := DeclaratorsKept(decls, m.table.exports, m.bindings);
    var r := StepItem(ms, p, copyDeps, noForwarded, VarDecl(decls));
    assert r == VarDeclStep(ms, p, decls);
    if exists d :: d in decls && !Resolvable(d, m.table.exports, m.bindings) {
      assert r.ItemThrew?;
    } else {
      assert r == Trimmed(ms, VarDecl(decls), kept, VarDecl(Survivors(decls, kept)));
      SurvivorsLength(decls, kept);
      TrimmedRule(ms, VarDecl(decls), kept, VarDecl(Survivors(decls, kept)));
    }
  }

  /** `export { ... } [from '...']` keeps its surviving specifiers in order
      and goes when it had some and lost them all. */
  lemma SpecifiersRule(ms: map<string, Module>, p: string, copyDeps: seq<Dependency>,
                       noForwarded: bool, source: Option<string>, specs: seq<Specifier>)
    requires p in ms
    ensures var w := SpecifiersWalk(ms, p, copyDeps, source, specs);
      var r := StepItem(ms, p, copyDeps, noForwarded, Specifiers(source, specs));
      && (r.ItemWalk? <==> w.SpecifierWalk?)
      && (r.ItemWalk? ==> r.ms == w.ms)
      && (r.ItemWalk? ==> (r.items == [] <==> specs != [] && forall i :: 0 <= i < |specs| ==> !w.kept[i]))
      && (r.ItemWalk? && r.items != [] ==> r.items == [Specifiers(source, Survivors(specs, w.kept))])
  {
    var w := SpecifiersWalk(ms, p, copyDeps, source, specs);
    if w.SpecifierWalk? {
      SurvivorsLength(specs, w.kept);
      TrimmedRule(w.ms, Specifiers(source, specs), w.kept, Specifiers(source, Survivors(specs, w.kept)));
    }
  }

  // ---------------------------------------------------------------------
  // Facts the imperative walk relies on
  // ---------------------------------------------------------------------

  /** Nothing survives exactly when no flag is set. */
  lemma {:induction false} SurvivorsNone<T>(orig: seq<T>, kept: seq<bool>)
    requires |kept| == |orig|
    ensures Survivors(orig, kept) == [] <==> true !in kept
  {
    if orig != [] {
      var n := |orig| - 1;
      SurvivorsNone(orig[..n], kept[..n]);
      assert kept == kept[..n] + [kept[n]];
    }
  }

  /** The statement a list walk leaves, read off the number of survivors:
      unchanged when all survive, removed when none does, rebuilt
      otherwise. */
  lemma TrimmedBySurvivors<T>(ms: map<string, Module>, item: ExportItem, orig: seq<T>, kept: seq<bool>,
                              rebuilt: ExportItem)
    requires |kept| == |orig|
    ensures Trimmed(ms, item, kept, rebuilt) ==
      if |Survivors(orig, kept)| == |orig| then ItemWalk(ms, [item], false)
      else if Survivors(orig, kept) == [] then ItemWalk(ms, [], true)
      else ItemWalk(ms, [rebuilt], true)
  {
    SurvivorsLength(orig, kept);
    SurvivorsNone(orig, kept);
    if false in kept {
      var i :| 0 <= i < |kept| && !kept[i];
    }
  }

  /** The walk over specifiers, one specifier further. */
  lemma SpecifiersWalkStep(ms: map<string, Module>, p: string, copyDeps: seq<Dependency>,
                           source: Option<string>, specs: seq<Specifier>, i: nat)
    requires p in ms && i < |specs|
    ensures var w := SpecifiersWalk(ms, p, copyDeps, source, specs[..i]);
      SpecifiersWalk(ms, p, copyDeps, source, specs[..i + 1]) ==
        if w.SpecifierThrew? then SpecifierThrew
        else
          var a := SpecifierAction(w.ms, p, copyDeps, source, specs[i]);
          if a == Throw then SpecifierThrew
          else SpecifierWalk(ApplyAction(w.ms, p, source, a), w.kept + [a == Retain])
  {
    assert specs[..i + 1][..i] == specs[..i];
  }

  /** The walk over statements, one statement further. */
  lemma ItemsWalkStep(ms: map<string, Module>, p: string, copyDeps: seq<Dependency>,
                      noForwarded: bool, items: seq<ExportItem>, i: nat)
    requires p in ms && i < |items|
    ensures var w := ItemsWalk(ms, p, copyDeps, noForwarded, items[..i]);
      ItemsWalk(ms, p, copyDeps, noForwarded, items[..i + 1]) ==
        if w.ItemThrew? then ItemThrew
        else
          var r := StepItem(w.ms, p, copyDeps, noForwarded, items[i]);
          if r.ItemThrew? then ItemThrew
          else ItemWalk(r.ms, w.items + r.items, w.changed || r.changed)
  {
    assert items[..i + 1][..i] == items[..i];
  }

  /** A TypeError ends the walk over specifiers: once a prefix threw, the
      whole list throws. */
  lemma {:induction false} SpecifiersThrewStays(ms: map<string, Module>, p: string, copyDeps: seq<Dependency>,
                                                source: Option<string>, specs: seq<Specifier>, n: nat)
    requires p in ms && n <= |specs|
    requires SpecifiersWalk(ms, p, copyDeps, source, specs[..n]).SpecifierThrew?
    ensures SpecifiersWalk(ms, p, copyDeps, source, specs).SpecifierThrew?
  {
    if n == |specs| {
      assert specs[..n] == specs;
    } else {
      var init := specs[..|specs| - 1];
      assert init[..n] == specs[..n];
      SpecifiersThrewStays(ms, p, copyDeps, source, init, n);
    }
  }

  /** Likewise for the walk over a module's statements. */
  lemma {:induction false} ItemsThrewStays(ms: map<string, Module>, p: string, copyDeps: seq<Dependency>,
                                           noForwarded: bool, items: seq<ExportItem>, n: nat)
    requires p in ms && n <= |items|
    requires ItemsWalk(ms, p, copyDeps, noForwarded, items[..n]).ItemThrew?
    ensures ItemsWalk(ms, p, copyDeps, noForwarded, items).ItemThrew?
  {
    if n == |items| {
      assert items[..n] == items;
    } else {
      var init := items[..|items| - 1];
      assert init[..n] == items[..n];
      ItemsThrewStays(ms, p, copyDeps, noForwarded, init, n);
    }
  }

  /** The pass over one more module. */
  lemma PrunedAllStep(ms: map<string, Module>, ps: seq<string>, p: string,
                      regenerate: (string, seq<ExportItem>) -> string)
    ensures PrunedAll(ms, ps + [p], regenerate) ==
      match PrunedAll(ms, ps, regenerate)
      case None => None
      case Some(ms') => if p in ms' then Pruned(ms', p, regenerate) else Some(ms')
  {
    assert (ps + [p])[..|ps|] == ps;
  }

  /** And for the pass over modules: a TypeError in one module rejects the
      whole pass. */
  lemma {:induction false} PrunedAllNoneStays(ms: map<string, Module>, ps: seq<string>, n: nat,
                                              regenerate: (string, seq<ExportItem>) -> string)
    requires n <= |ps|
    requires PrunedAll(ms, ps[..n], regenerate).None?
    ensures PrunedAll(ms, ps, regenerate).None?
  {
    if n == |ps| {
      assert ps[..n] == ps;
    } else {
      var init := ps[..|ps| - 1];
      assert init[..n] == ps[..n];
      PrunedAllNoneStays(ms, init, n, regenerate);
    }
  }
}
