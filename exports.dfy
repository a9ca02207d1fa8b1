/**
 * A module's export table (`importee` in packages/metro-tree-shaking/src/index.js,
 * of type `TransformResultExportModules`): how many references the rest of
 * the graph holds to its default export, to its `export *` forwarding, and to
 * each named export. The same shape is stored on every dependency edge as
 * the snapshot of what that one edge uses.
 */
module ExportTables {
  import opened Utils

  /** `exportDefault.references`, `exportAll.references` and
      `exports[name].references`. */
  datatype ExportTable = ExportTable(def: int, all: int, exports: map<string, int>)

  /** The count of `name` in a table's named exports, 0 when absent. */
  function Count(exports: map<string, int>, name: string): int
  {
    if name in exports then exports[name] else 0
  }

  /** `wasNoReferences`: no named export has a positive count and neither
      has the default nor the `export *` count. */
  predicate WasNoReferences(t: ExportTable)
  {
    !(exists name :: name in t.exports && t.exports[name] > 0) &&
    t.def <= 0 && t.all <= 0
  }

  /** A table is exhausted exactly when every count in it is at most zero;
      negative counts therefore count as exhausted. */
  lemma ExhaustedExactly(t: ExportTable)
    ensures WasNoReferences(t) <==>
      t.def <= 0 && t.all <= 0 && forall name :: name in t.exports ==> t.exports[name] <= 0
    ensures WasNoReferences(t) ==> forall name :: Count(t.exports, name) <= 0
  {
  }

  // ---------------------------------------------------------------------
  // Raising counts (collectExports)
  // ---------------------------------------------------------------------

  /** Every name in `names` raised by the number of times it occurs there,
      created first when it is not yet a key. */
  function Bumped(exports: map<string, int>, names: multiset<string>): map<string, int>
  {
    map name | name in exports.Keys + NamesOf(names) :: Count(exports, name) + names[name]
  }

  /** The distinct names of a multiset. */
  function NamesOf(names: multiset<string>): set<string>
  {
    set name | name in names
  }

  /** The `forEach` loops of collectExports: for each name, `references++`
      when the key is own, `{references: 1}` otherwise. The arrays walked are
      `Object.keys` of a table and an intersection; the order of the walk does
      not change the result, so the names are taken as a multiset. */
  method Increment(exports: map<string, int>, names: multiset<string>) returns (r: map<string, int>)
    ensures r == Bumped(exports, names)
  {
    r := exports;
    var rest := names;
    ghost var done: multiset<string> := multiset{};
    assert Bumped(exports, done) == exports;
    while rest != multiset{}
      invariant done + rest == names
      invariant r == Bumped(exports, done)
      decreases |rest|
    {
      var key :| key in rest;
      BumpedTwice(exports, done, multiset{key});
      MoveOne(done, rest, key);
      r := BumpOne(r, key);
      rest := rest - multiset{key};
      done := done + multiset{key};
    }
  }

  /** One name of the walk: `references++` on an own key, a fresh
      `{references: 1}` otherwise. That is the walk over the single name. */
  method BumpOne(exports: map<string, int>, key: string) returns (r: map<string, int>)
    ensures r == Bumped(exports, multiset{key})
  {
    assert NamesOf(multiset{key}) == {key};
    if HasOwnProperty(exports, key) {
      r := exports[key := exports[key] + 1];
    } else {
      r := exports[key := 1];
    }
  }

  lemma MoveOne(done: multiset<string>, rest: multiset<string>, key: string)
    requires key in rest
    ensures (done + multiset{key}) + (rest - multiset{key}) == done + rest
    ensures |rest - multiset{key}| < |rest|
  {
    assert rest == (rest - multiset{key}) + multiset{key};
  }

  /** Walking `a` and then `b` is walking both at once. */
  lemma BumpedTwice(exports: map<string, int>, a: multiset<string>, b: multiset<string>)
    ensures Bumped(Bumped(exports, a), b) == Bumped(exports, a + b)
  {
    var ab := Bumped(exports, a);
    assert NamesOf(a + b) == NamesOf(a) + NamesOf(b);
    forall name ensures Count(ab, name) == Count(exports, name) + a[name] {
    }
  }

  /** After the walk the own keys of the table are those it had and the
      names walked; an own key holds its old count (0 when it was not own)
      plus the times it was walked. */
  lemma BumpedOwnKeys(exports: map<string, int>, names: multiset<string>, key: string)
    ensures HasOwnProperty(Bumped(exports, names), key) <==> HasOwnProperty(exports, key) || key in names
    ensures HasOwnProperty(Bumped(exports, names), key) ==>
      Bumped(exports, names)[key] == Count(exports, key) + names[key]
  {
    assert key in names <==> key in NamesOf(names);
  }

  /** What one dependency edge contributes to its target's table in
      collectExports. `targetNamed` is the target's locally declared export
      names, `forwarded` the importing module's export-table keys that it does
      not declare itself, `snap` the edge's snapshot. */
  function Credit(t: ExportTable, targetNamed: seq<string>, forwarded: set<string>, snap: ExportTable): (r: ExportTable)
    ensures r.def == t.def + snap.def
    ensures r.all == if Forwards(targetNamed, forwarded, snap) then t.all + snap.all else t.all
    ensures forall name :: name in r.exports <==>
      name in t.exports || name in snap.exports ||
      (Forwards(targetNamed, forwarded, snap) && name in forwarded && name in targetNamed)
    ensures forall name :: name in r.exports ==>
      r.exports[name] == Count(t.exports, name) + (if name in snap.exports then 1 else 0) +
                         (if Forwards(targetNamed, forwarded, snap) && name in forwarded
                          then multiset(targetNamed)[name] else 0)
  {
    var common := Intersect(forwarded, targetNamed);
    var forward := snap.all != 0 && |common| > 0;
    var named := Bumped(t.exports, multiset(snap.exports.Keys));
    var r := ExportTable(t.def + snap.def,
                         if forward then t.all + snap.all else t.all,
                         if forward then Bumped(named, multiset(common)) else named);
    assert forall name ::
      multiset(common)[name] == (if name in forwarded then multiset(targetNamed)[name] else 0) by {
      forall name ensures multiset(common)[name] ==
        (if name in forwarded then multiset(targetNamed)[name] else 0) {
        IntersectCount(forwarded, targetNamed, name);
      }
    }
    r
  }

  /** The per-edge body of collectExports on the target's table: the
      default count, the snapshot's named keys, and the forwarded names
      when `export *` usage goes through. */
  method CreditTable(t: ExportTable, targetNamed: seq<string>, forwarded: seq<string>,
                     ghost names: set<string>, snap: ExportTable) returns (r: ExportTable)
    requires Elements(forwarded) == names
    ensures r == Credit(t, targetNamed, names, snap)
  {
    var def := t.def + snap.def;
    var all := t.all;
    var exports := Increment(t.exports, multiset(snap.exports.Keys));
    if snap.all != 0 {
      var common := Intersection(forwarded, targetNamed);
      if |common| > 0 {
        all := all + snap.all;
        exports := Increment(exports, multiset(common));
      }
    }
    r := ExportTable(def, all, exports);
  }

  /** `export *` usage is forwarded through an edge exactly when the
      snapshot's `exportAll` count is non-zero and some name the importer
      forwards is declared by the target. */
  predicate Forwards(targetNamed: seq<string>, forwarded: set<string>, snap: ExportTable)
  {
    snap.all != 0 && |Intersect(forwarded, targetNamed)| > 0
  }

  /** The forwarding condition, stated on names instead of the length of the
      intersection. */
  lemma ForwardsExactly(targetNamed: seq<string>, forwarded: set<string>, snap: ExportTable)
    ensures Forwards(targetNamed, forwarded, snap) <==>
      snap.all != 0 && exists name :: name in forwarded && name in targetNamed
  {
    var common := Intersect(forwarded, targetNamed);
    if exists name :: name in forwarded && name in targetNamed {
      var name :| name in forwarded && name in targetNamed;
      IntersectMembers(forwarded, targetNamed, name);
    } else if |common| > 0 {
      IntersectMembers(forwarded, targetNamed, common[0]);
    }
  }

  // ---------------------------------------------------------------------
  // Lowering counts (the sweep)
  // ---------------------------------------------------------------------

  /** Every key of `exports` lowered by its count in `snap`; names the
      table does not have are not added. */
  function Subtracted(exports: map<string, int>, snap: map<string, int>): map<string, int>
  {
    map name | name in exports :: exports[name] - Count(snap, name)
  }

  /** The `forEach` over `Object.keys(data.importee.exports)` in the sweep:
      subtract the snapshot's count from each key the target already owns. */
  method Deduct(exports: map<string, int>, snap: map<string, int>) returns (r: map<string, int>)
    ensures r == Subtracted(exports, snap)
  {
    r := exports;
    var rest := snap.Keys;
    while rest != {}
      invariant rest <= snap.Keys
      invariant r.Keys == exports.Keys
      invariant forall name :: name in r ==>
        r[name] == exports[name] - (if name in snap && name !in rest then snap[name] else 0)
      decreases rest
    {
      var key :| key in rest;
      if HasOwnProperty(r, key) {
        r := r[key := r[key] - snap[key]];
      }
      rest := rest - {key};
    }
  }

  /** What deleting an importer takes away from one target: the snapshot's
      default, `export *` and named counts, the named ones only for keys the
      target already has. */
  function Debit(t: ExportTable, snap: ExportTable): (r: ExportTable)
    ensures r.def == t.def - snap.def && r.all == t.all - snap.all
    ensures r.exports.Keys == t.exports.Keys
    ensures forall name :: name in r.exports ==>
      r.exports[name] == t.exports[name] - Count(snap.exports, name)
  {
    ExportTable(t.def - snap.def, t.all - snap.all, Subtracted(t.exports, snap.exports))
  }

  /** Every count of a snapshot is non-negative. */
  predicate NonNegative(snap: ExportTable)
  {
    snap.def >= 0 && snap.all >= 0 && forall name :: name in snap.exports ==> snap.exports[name] >= 0
  }

  /** Subtracting a non-negative snapshot never revives an exhausted table. */
  lemma DebitKeepsExhausted(t: ExportTable, snap: ExportTable)
    requires WasNoReferences(t) && NonNegative(snap)
    ensures WasNoReferences(Debit(t, snap))
  {
    ExhaustedExactly(t);
  }

  /** Crediting an edge in collectExports and debiting the same edge in the
      sweep restore the default count, but not the others: each named key of
      the snapshot ends `1 - count` away from where it started (collect adds
      one per key, the sweep the snapshot's count), the `export *` count loses
      the snapshot's count when collect did not forward it, and forwarded
      names keep the increments collect gave them. */
  lemma CreditThenDebit(t: ExportTable, targetNamed: seq<string>, forwarded: set<string>, snap: ExportTable)
    ensures var r := Debit(Credit(t, targetNamed, forwarded, snap), snap);
      && r.def == t.def
      && r.all == (if Forwards(targetNamed, forwarded, snap) then t.all else t.all - snap.all)
      && forall name :: name in r.exports ==>
           r.exports[name] == Count(t.exports, name) +
                              (if name in snap.exports then 1 - snap.exports[name] else 0) +
                              (if Forwards(targetNamed, forwarded, snap) && name in forwarded
                               then multiset(targetNamed)[name] else 0)
  {
  }

  /** So the round trip is exact for an edge that does not forward `export *`
      usage and whose snapshot counts every named import once and carries no
      `exportAll` count. */
  lemma CreditThenDebitExact(t: ExportTable, targetNamed: seq<string>, forwarded: set<string>, snap: ExportTable)
    requires snap.all == 0
    requires forall name :: name in snap.exports ==> snap.exports[name] == 1
    requires snap.exports.Keys <= t.exports.Keys
    ensures Debit(Credit(t, targetNamed, forwarded, snap), snap) == t
  {
    var r := Debit(Credit(t, targetNamed, forwarded, snap), snap);
    CreditThenDebit(t, targetNamed, forwarded, snap);
    assert r.exports.Keys == t.exports.Keys;
    assert r.exports == t.exports;
  }

  /** `after` has the keys of `before` and no count above its count there. */
  ghost predicate Lowered(before: ExportTable, after: ExportTable)
  {
    && after.def <= before.def
    && after.all <= before.all
    && after.exports.Keys == before.exports.Keys
    && forall name :: name in before.exports ==> after.exports[name] <= before.exports[name]
  }

  /** Debiting a non-negative snapshot lowers a table. */
  lemma DebitLowers(t: ExportTable, snap: ExportTable)
    requires NonNegative(snap)
    ensures Lowered(t, Debit(t, snap))
  {
  }

  /** A table that only went down stays exhausted. */
  lemma LoweredKeepsExhausted(before: ExportTable, after: ExportTable)
    requires Lowered(before, after) && WasNoReferences(before)
    ensures WasNoReferences(after)
  {
    ExhaustedExactly(before);
    ExhaustedExactly(after);
  }
}
