/**
 * The array and dictionary helpers of the tree-shaking pass
 * (packages/metro-tree-shaking/src/utils.js).
 *
 * JavaScript arrays are sequences; a plain object used as a dictionary is a
 * map from its own keys.
 */
module Utils {

  datatype Option<T> = None | Some(value: T)

  /** True iff no element occurs twice in `s`. */
  ghost predicate NoDuplicates<T>(s: seq<T>)
  {
    forall i, j :: 0 <= i < j < |s| ==> s[i] != s[j]
  }

  /** The elements of a sequence, as a set. */
  function Elements<T>(s: seq<T>): set<T>
  {
    set x | x in s
  }

  lemma LastSplit<T>(s: seq<T>)
    requires s != []
    ensures s == s[..|s| - 1] + [s[|s| - 1]]
  {
  }

  lemma ElementsAppend<T>(s: seq<T>, x: T)
    ensures Elements(s + [x]) == Elements(s) + {x}
  {
    assert forall y :: y in s + [x] <==> y in s || y == x;
  }

  /** Appending an element not yet present keeps a sequence duplicate-free. */
  lemma AppendNoDuplicates<T>(s: seq<T>, x: T)
    requires NoDuplicates(s) && x !in s
    ensures NoDuplicates(s + [x])
  {
  }

  // ---------------------------------------------------------------------
  // hasOwnProperty
  // ---------------------------------------------------------------------

  /** `hasOwnProperty(obj, key)`: `key` is one of the object's own keys. */
  predicate HasOwnProperty<V>(obj: map<string, V>, key: string)
  {
    key in obj
  }

  // ---------------------------------------------------------------------
  // intersection
  // ---------------------------------------------------------------------

  /** The elements of `b` that occur in `inA`, in `b`'s order, keeping
      `b`'s duplicates. */
  function Intersect<T(==)>(inA: set<T>, b: seq<T>): seq<T>
  {
    if b == [] then []
    else Intersect(inA, b[..|b| - 1]) + (if b[|b| - 1] in inA then [b[|b| - 1]] else [])
  }

  /** `intersection(setA, setB)`: walks `setB` and pushes every element that
      `setA` includes. */
  method Intersection<T(==)>(setA: seq<T>, setB: seq<T>) returns (r: seq<T>)
    ensures r == Intersect(Elements(setA), setB)
  {
    r := [];
    for i := 0 to |setB|
      invariant r == Intersect(Elements(setA), setB[..i])
    {
      var elem := setB[i];
      if elem in setA {
        r := r + [elem];
      }
      assert setB[..i + 1][..i] == setB[..i];
    }
    assert setB[..|setB|] == setB;
  }

  /** Each element occurs in the intersection exactly as often as in `b`
      when it is in `a`, and not at all otherwise. */
  lemma {:induction false} IntersectCount<T>(inA: set<T>, b: seq<T>, x: T)
    ensures multiset(Intersect(inA, b))[x] == if x in inA then multiset(b)[x] else 0
  {
    if b != [] {
      var init := b[..|b| - 1];
      IntersectCount(inA, init, x);
      assert b == init + [b[|b| - 1]];
    }
  }

  /** Membership in the intersection, both directions. */
  lemma IntersectMembers<T>(inA: set<T>, b: seq<T>, x: T)
    ensures x in Intersect(inA, b) <==> x in inA && x in b
  {
    IntersectCount(inA, b, x);
    assert x in Intersect(inA, b) <==> multiset(Intersect(inA, b))[x] > 0;
    assert x in b <==> multiset(b)[x] > 0;
  }

  /** The intersection is never longer than `b` and is empty when either
      input is. */
  lemma {:induction false} IntersectLength<T>(inA: set<T>, b: seq<T>)
    ensures |Intersect(inA, b)| <= |b|
    ensures inA == {} || b == [] ==> Intersect(inA, b) == []
  {
    if b != [] {
      IntersectLength(inA, b[..|b| - 1]);
    }
  }

  /** The intersection keeps `b`'s order: it distributes over concatenation. */
  lemma {:induction false} IntersectConcat<T>(inA: set<T>, b1: seq<T>, b2: seq<T>)
    ensures Intersect(inA, b1 + b2) == Intersect(inA, b1) + Intersect(inA, b2)
  {
    if b2 == [] {
      assert b1 + b2 == b1;
    } else {
      var init := b2[..|b2| - 1];
      IntersectConcat(inA, b1, init);
      assert (b1 + b2)[..|b1 + b2| - 1] == b1 + init;
    }
  }

  // ---------------------------------------------------------------------
  // difference
  // ---------------------------------------------------------------------

  /** `[...new Set(a)]`: the elements of `a` in order of first occurrence. */
  function Distinct<T(==)>(a: seq<T>): seq<T>
  {
    if a == [] then []
    else
      var d := Distinct(a[..|a| - 1]);
      if a[|a| - 1] in d then d else d + [a[|a| - 1]]
  }

  /** `s` with every element that is in `b` deleted, the rest in order. */
  function Without<T(==)>(s: seq<T>, b: set<T>): seq<T>
  {
    if s == [] then []
    else Without(s[..|s| - 1], b) + (if s[|s| - 1] in b then [] else [s[|s| - 1]])
  }

  /** `difference(setA, setB)`: a set built from `setA`, from which every
      element of `setB` is deleted in turn. */
  method Difference<T(==)>(setA: seq<T>, setB: seq<T>) returns (r: seq<T>)
    ensures r == Without(Distinct(setA), Elements(setB))
  {
    r := Distinct(setA);
    WithoutNothing(r);
    assert Elements(setB[..0]) == {};
    for i := 0 to |setB|
      invariant r == Without(Distinct(setA), Elements(setB[..i]))
    {
      var elem := setB[i];
      WithoutTwice(Distinct(setA), Elements(setB[..i]), elem);
      r := Without(r, {elem});
      assert (Elements(setB[..i + 1])) == (Elements(setB[..i])) + {elem} by {
        assert setB[..i + 1] == setB[..i] + [elem];
      }
    }
    assert setB[..|setB|] == setB;
  }

  lemma {:induction false} WithoutNothing<T>(s: seq<T>)
    ensures Without(s, {}) == s
  {
    if s != [] {
      WithoutNothing(s[..|s| - 1]);
    }
  }

  lemma {:induction false} WithoutTwice<T>(s: seq<T>, b: set<T>, x: T)
    ensures Without(Without(s, b), {x}) == Without(s, b + {x})
  {
    if s != [] {
      var init := s[..|s| - 1];
      var last := s[|s| - 1];
      WithoutTwice(init, b, x);
      WithoutAppend(Without(init, b), if last in b then [] else [last], {x});
    }
  }

  lemma {:induction false} WithoutAppend<T>(s: seq<T>, t: seq<T>, b: set<T>)
    ensures Without(s + t, b) == Without(s, b) + Without(t, b)
  {
    if t == [] {
      assert s + t == s;
    } else {
      var init := t[..|t| - 1];
      var last := t[|t| - 1];
      WithoutAppend(s, init, b);
      assert (s + t)[..|s + t| - 1] == s + init;
      assert (s + t)[|s + t| - 1] == last;
      var tail := if last in b then [] else [last];
      calc {
        Without(s + t, b);
        Without(s + init, b) + tail;
        (Without(s, b) + Without(init, b)) + tail;
        Without(s, b) + (Without(init, b) + tail);
      }
    }
  }

  lemma {:induction false} WithoutMembers<T>(s: seq<T>, b: set<T>, x: T)
    ensures x in Without(s, b) <==> x in s && x !in b
  {
    if s != [] {
      WithoutMembers(s[..|s| - 1], b, x);
      assert s == s[..|s| - 1] + [s[|s| - 1]];
    }
  }

  lemma {:induction false} DistinctMembers<T>(a: seq<T>, x: T)
    ensures x in Distinct(a) <==> x in a
  {
    if a != [] {
      DistinctMembers(a[..|a| - 1], x);
      assert a == a[..|a| - 1] + [a[|a| - 1]];
    }
  }

  lemma {:induction false} DistinctNoDuplicates<T>(a: seq<T>)
    ensures NoDuplicates(Distinct(a))
  {
    if a != [] {
      DistinctNoDuplicates(a[..|a| - 1]);
    }
  }

  lemma {:induction false} WithoutNoDuplicates<T>(s: seq<T>, b: set<T>)
    requires NoDuplicates(s)
    ensures NoDuplicates(Without(s, b))
  {
    if s != [] {
      var init := s[..|s| - 1];
      WithoutNoDuplicates(init, b);
      if s[|s| - 1] !in b {
        WithoutMembers(init, b, s[|s| - 1]);
      }
    }
  }

  /** The difference holds exactly the elements of `a` that are not in `b`. */
  lemma DifferenceMembers<T>(a: seq<T>, b: seq<T>, x: T)
    ensures x in Without(Distinct(a), Elements(b)) <==> x in a && x !in b
  {
    WithoutMembers(Distinct(a), Elements(b), x);
    DistinctMembers(a, x);
  }

  /** The difference lists no element twice. */
  lemma DifferenceNoDuplicates<T>(a: seq<T>, b: seq<T>)
    ensures NoDuplicates(Without(Distinct(a), Elements(b)))
  {
    DistinctNoDuplicates(a);
    WithoutNoDuplicates(Distinct(a), Elements(b));
  }

  /** `Distinct` keeps the first occurrence: appending an element already
      seen changes nothing, and a new one goes to the end. */
  lemma DistinctFirstOccurrence<T>(a: seq<T>, x: T)
    ensures x in a ==> Distinct(a + [x]) == Distinct(a)
    ensures x !in a ==> Distinct(a + [x]) == Distinct(a) + [x]
  {
    assert (a + [x])[..|a|] == a;
    DistinctMembers(a, x);
  }

  /** The position of the first occurrence of `x` in `a`. */
  function FirstIndex<T(==)>(a: seq<T>, x: T): (k: nat)
    requires x in a
    ensures k < |a| && a[k] == x
    ensures forall j :: 0 <= j < k ==> a[j] != x
  {
    if a[0] == x then 0 else 1 + FirstIndex(a[1..], x)
  }

  /** Extending a sequence does not move a first occurrence it already has. */
  lemma FirstIndexExtend<T>(a: seq<T>, b: seq<T>, y: T)
    requires y in a
    ensures y in a + b && FirstIndex(a + b, y) == FirstIndex(a, y)
  {
    var k := FirstIndex(a, y);
    assert (a + b)[k] == y;
  }

  /** `Distinct` lists the elements of `a` in the order in which they first
      occur in `a`. */
  lemma {:induction false} DistinctInOrder<T>(a: seq<T>, i: nat, j: nat)
    requires i < j < |Distinct(a)|
    ensures Distinct(a)[i] in a && Distinct(a)[j] in a
    ensures FirstIndex(a, Distinct(a)[i]) < FirstIndex(a, Distinct(a)[j])
  {
    var init, x := a[..|a| - 1], a[|a| - 1];
    assert a == init + [x];
    var d := Distinct(init);
    DistinctMembers(init, d[i]);
    FirstIndexExtend(init, [x], d[i]);
    if j < |d| {
      DistinctInOrder(init, i, j);
      DistinctMembers(init, d[j]);
      FirstIndexExtend(init, [x], d[j]);
    } else {
      DistinctMembers(init, x);
      assert Distinct(a)[j] == x;
    }
  }
}
