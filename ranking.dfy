/**
 * `Array.prototype.sort` with a comparator: a stable sort. `above(a, b)` holds
 * when the comparator puts `a` strictly before `b` (it returns a negative number
 * for `(a, b)`). The functional insertion sort below is the reference the
 * callers' ensures clauses use; its lemmas say it orders, permutes and keeps
 * equivalent elements in their input order.
 */
module Ranking {

  /** The comparator is consistent: asymmetric, and "not before" is transitive. */
  ghost predicate StrictWeakOrder<T(!new)>(above: (T, T) -> bool) {
    && (forall a, b :: above(a, b) ==> !above(b, a))
    && (forall a, b, c :: !above(a, b) && !above(b, c) ==> !above(a, c))
  }

  /** Neither element has to come before the other (the comparator returns 0). */
  predicate Equivalent<T>(a: T, b: T, above: (T, T) -> bool) {
    !above(a, b) && !above(b, a)
  }

  /** No element is strictly before an element that precedes it. */
  ghost predicate SortedBy<T>(r: seq<T>, above: (T, T) -> bool) {
    forall i, j :: 0 <= i < j < |r| ==> !above(r[j], r[i])
  }

  /** The subsequence of the elements of `s` equivalent to `z`, in the order of `s`. */
  function EquivalentTo<T>(s: seq<T>, z: T, above: (T, T) -> bool): seq<T> {
    if |s| == 0 then []
    else (if Equivalent(s[0], z, above) then [s[0]] else []) + EquivalentTo(s[1..], z, above)
  }

  lemma {:induction false} EquivalentToAppend<T>(a: seq<T>, b: seq<T>, z: T, above: (T, T) -> bool)
    ensures EquivalentTo(a + b, z, above) == EquivalentTo(a, z, above) + EquivalentTo(b, z, above)
  {
    if |a| == 0 {
      assert a + b == b;
    } else {
      var head := if Equivalent(a[0], z, above) then [a[0]] else [];
      assert (a + b)[0] == a[0] && (a + b)[1..] == a[1..] + b;
      EquivalentToAppend(a[1..], b, z, above);
      calc {
        EquivalentTo(a + b, z, above);
        head + EquivalentTo(a[1..] + b, z, above);
        head + (EquivalentTo(a[1..], z, above) + EquivalentTo(b, z, above));
        (head + EquivalentTo(a[1..], z, above)) + EquivalentTo(b, z, above);
      }
    }
  }

  /** Place `x` after the last element of `r` that it is not strictly before. */
  function Insert<T>(r: seq<T>, x: T, above: (T, T) -> bool): (out: seq<T>)
    ensures |out| == |r| + 1
    ensures multiset(out) == multiset(r) + multiset{x}
  {
    if |r| == 0 || !above(x, r[|r| - 1]) then r + [x]
    else
      assert r == r[..|r| - 1] + [r[|r| - 1]];
      Insert(r[..|r| - 1], x, above) + [r[|r| - 1]]
  }

  /** The stable sort: insert the elements one by one, in input order. */
  function SortBy<T>(s: seq<T>, above: (T, T) -> bool): (r: seq<T>)
    ensures |r| == |s|
    ensures multiset(r) == multiset(s)
  {
    if |s| == 0 then []
    else
      assert s == s[..|s| - 1] + [s[|s| - 1]];
      Insert(SortBy(s[..|s| - 1], above), s[|s| - 1], above)
  }

  lemma {:induction false} InsertSorted<T(!new)>(r: seq<T>, x: T, above: (T, T) -> bool)
    requires StrictWeakOrder(above)
    requires SortedBy(r, above)
    ensures SortedBy(Insert(r, x, above), above)
  {
    if |r| == 0 {
    } else if !above(x, r[|r| - 1]) {
      var out := r + [x];
      forall i, j | 0 <= i < j < |out| ensures !above(out[j], out[i]) {
        if j == |r| && i < |r| - 1 {
          assert !above(r[|r| - 1], r[i]);
        }
      }
    } else {
      var last := r[|r| - 1];
      var front := r[..|r| - 1];
      assert SortedBy(front, above);
      InsertSorted(front, x, above);
      var ins := Insert(front, x, above);
      var out := ins + [last];
      forall i, j | 0 <= i < j < |out| ensures !above(out[j], out[i]) {
        if j == |ins| {
          assert ins[i] in multiset(ins);
          if ins[i] != x {
            assert ins[i] in multiset(front);
            var k :| 0 <= k < |front| && front[k] == ins[i];
            assert r[k] == front[k];
          }
        }
      }
    }
  }

  /** The sort orders its output. */
  lemma {:induction false} SortBySorted<T(!new)>(s: seq<T>, above: (T, T) -> bool)
    requires StrictWeakOrder(above)
    ensures SortedBy(SortBy(s, above), above)
  {
    if |s| > 0 {
      SortBySorted(s[..|s| - 1], above);
      InsertSorted(SortBy(s[..|s| - 1], above), s[|s| - 1], above);
    }
  }

  /** Two elements one of which is strictly before the other are never both equivalent
      to `z`, so their subsequences of `z`-equivalents may be swapped. */
  lemma SwapOrdered<T(!new)>(x: T, y: T, z: T, above: (T, T) -> bool)
    requires StrictWeakOrder(above) && above(x, y)
    ensures EquivalentTo([x], z, above) + EquivalentTo([y], z, above) == EquivalentTo([y], z, above) + EquivalentTo([x], z, above)
  {
    assert !(Equivalent(x, z, above) && Equivalent(y, z, above));
  }

  lemma {:induction false} InsertStable<T(!new)>(r: seq<T>, x: T, z: T, above: (T, T) -> bool)
    requires StrictWeakOrder(above)
    ensures EquivalentTo(Insert(r, x, above), z, above) == EquivalentTo(r + [x], z, above)
  {
    if |r| > 0 && above(x, r[|r| - 1]) {
      var last := r[|r| - 1];
      var front := r[..|r| - 1];
      assert r == front + [last];
      InsertStable(front, x, z, above);
      EquivalentToAppend(Insert(front, x, above), [last], z, above);
      EquivalentToAppend(front, [x], z, above);
      EquivalentToAppend(front, [last], z, above);
      EquivalentToAppend(front + [last], [x], z, above);
      SwapOrdered(x, last, z, above);
      calc {
        EquivalentTo(Insert(r, x, above), z, above);
        EquivalentTo(Insert(front, x, above) + [last], z, above);
        EquivalentTo(Insert(front, x, above), z, above) + EquivalentTo([last], z, above);
        EquivalentTo(front + [x], z, above) + EquivalentTo([last], z, above);
        EquivalentTo(front, z, above) + EquivalentTo([x], z, above) + EquivalentTo([last], z, above);
        EquivalentTo(front, z, above) + (EquivalentTo([x], z, above) + EquivalentTo([last], z, above));
        EquivalentTo(front, z, above) + (EquivalentTo([last], z, above) + EquivalentTo([x], z, above));
        EquivalentTo(front, z, above) + EquivalentTo([last], z, above) + EquivalentTo([x], z, above);
        EquivalentTo(front + [last], z, above) + EquivalentTo([x], z, above);
        EquivalentTo(r + [x], z, above);
      }
    }
  }

  /** The sort is stable: the elements equivalent to any `z` keep their input order. */
  lemma {:induction false} SortByStable<T(!new)>(s: seq<T>, z: T, above: (T, T) -> bool)
    requires StrictWeakOrder(above)
    ensures EquivalentTo(SortBy(s, above), z, above) == EquivalentTo(s, z, above)
  {
    if |s| > 0 {
      var front := s[..|s| - 1];
      var x := s[|s| - 1];
      assert s == front + [x];
      SortByStable(front, z, above);
      InsertStable(SortBy(front, above), x, z, above);
      EquivalentToAppend(SortBy(front, above), [x], z, above);
      EquivalentToAppend(front, [x], z, above);
      calc {
        EquivalentTo(SortBy(s, above), z, above);
        EquivalentTo(Insert(SortBy(front, above), x, above), z, above);
        EquivalentTo(SortBy(front, above) + [x], z, above);
        EquivalentTo(SortBy(front, above), z, above) + EquivalentTo([x], z, above);
        EquivalentTo(front, z, above) + EquivalentTo([x], z, above);
        EquivalentTo(s, z, above);
      }
    }
  }
}
