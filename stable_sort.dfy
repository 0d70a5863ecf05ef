/**
 * `meshData.sort((a, b) => a.sortKey - b.sortKey)`: an in-place sort by
 * ascending key that must be stable (section 23.1.3.30 of ECMA-262, 2023
 * edition). The sort is specified by `StableSorted`, an insertion sort on
 * sequences, and the in-place method is proved to compute it.
 */
module StableSort {
  import opened IfcTypes

  /** Keys never decrease along `s`. */
  predicate SortedByKey(s: seq<KeyedGeometry>)
  {
    forall i, j :: 0 <= i < j < |s| ==> s[i].sortKey <= s[j].sortKey
  }

  /** The records of `s` whose key is `key`, in their order in `s`. */
  function WithKey(s: seq<KeyedGeometry>, key: real): seq<KeyedGeometry>
    decreases |s|
  {
    if s == [] then []
    else WithKey(s[..|s| - 1], key) + (if s[|s| - 1].sortKey == key then [s[|s| - 1]] else [])
  }

  /** `x` placed right after the last record of `t` whose key is not greater than its own. */
  function InsertLast(t: seq<KeyedGeometry>, x: KeyedGeometry): (r: seq<KeyedGeometry>)
    ensures |r| == |t| + 1
    decreases |t|
  {
    if t == [] || t[|t| - 1].sortKey <= x.sortKey then t + [x]
    else InsertLast(t[..|t| - 1], x) + [t[|t| - 1]]
  }

  /** Inserting adds `x` and loses nothing. */
  lemma {:induction false} InsertLastPermutes(t: seq<KeyedGeometry>, x: KeyedGeometry)
    ensures multiset(InsertLast(t, x)) == multiset(t) + multiset{x}
    decreases |t|
  {
    if t != [] && t[|t| - 1].sortKey > x.sortKey {
      InsertLastPermutes(t[..|t| - 1], x);
      assert t == t[..|t| - 1] + [t[|t| - 1]];
    }
  }

  /** Inserting below a bound every record of `t` respects keeps the whole list below it. */
  lemma {:induction false} InsertLastBounded(t: seq<KeyedGeometry>, x: KeyedGeometry, bound: real)
    requires forall m :: 0 <= m < |t| ==> t[m].sortKey <= bound
    requires x.sortKey <= bound
    ensures forall m :: 0 <= m < |t| + 1 ==> InsertLast(t, x)[m].sortKey <= bound
    decreases |t|
  {
    if t != [] && t[|t| - 1].sortKey > x.sortKey {
      InsertLastBounded(t[..|t| - 1], x, bound);
    }
  }

  /** Inserting into a list sorted by key keeps it sorted. */
  lemma {:induction false} InsertLastSorted(t: seq<KeyedGeometry>, x: KeyedGeometry)
    requires SortedByKey(t)
    ensures SortedByKey(InsertLast(t, x))
    decreases |t|
  {
    var r := InsertLast(t, x);
    if t == [] || t[|t| - 1].sortKey <= x.sortKey {
      assert r == t + [x];
      forall i, j | 0 <= i < j < |r| ensures r[i].sortKey <= r[j].sortKey {
        if j == |t| {
          assert r[i] == t[i] && t[i].sortKey <= t[|t| - 1].sortKey;
        }
      }
    } else {
      var t', last := t[..|t| - 1], t[|t| - 1];
      var rest := InsertLast(t', x);
      assert r == rest + [last];
      InsertLastSorted(t', x);
      assert forall m :: 0 <= m < |t'| ==> t'[m].sortKey <= last.sortKey by {
        forall m | 0 <= m < |t'| ensures t'[m].sortKey <= last.sortKey {
          assert t'[m] == t[m];
        }
      }
      InsertLastBounded(t', x, last.sortKey);
      forall i, j | 0 <= i < j < |r| ensures r[i].sortKey <= r[j].sortKey {
        assert r[i] == rest[i];
        if j < |rest| {
          assert r[j] == rest[j];
        }
      }
    }
  }

  /** The stable ascending sort: each record inserted, in input order, after every record with a key not greater. */
  function StableSorted(s: seq<KeyedGeometry>): (r: seq<KeyedGeometry>)
    ensures |r| == |s|
    decreases |s|
  {
    if s == [] then []
    else
      InsertLast(StableSorted(s[..|s| - 1]), s[|s| - 1])
  }

  /** The sorted list is ordered by ascending key. */
  lemma {:induction false} StableSortedIsSorted(s: seq<KeyedGeometry>)
    ensures SortedByKey(StableSorted(s))
    decreases |s|
  {
    if s != [] {
      StableSortedIsSorted(s[..|s| - 1]);
      InsertLastSorted(StableSorted(s[..|s| - 1]), s[|s| - 1]);
    }
  }

  /** The sorted list is a permutation of the input. */
  lemma {:induction false} StableSortedIsPermutation(s: seq<KeyedGeometry>)
    ensures multiset(StableSorted(s)) == multiset(s)
    decreases |s|
  {
    if s != [] {
      StableSortedIsPermutation(s[..|s| - 1]);
      InsertLastPermutes(StableSorted(s[..|s| - 1]), s[|s| - 1]);
      assert s == s[..|s| - 1] + [s[|s| - 1]];
    }
  }

  /** Appending one record extends the records of its own key only. */
  lemma WithKeyAppend(s: seq<KeyedGeometry>, e: KeyedGeometry, key: real)
    ensures WithKey(s + [e], key) == WithKey(s, key) + (if e.sortKey == key then [e] else [])
  {
    // The solver proves this unaided; the hints below only keep its effort steady.
    assert (s + [e])[..|s|] == s;
  }

  /** Inserting `x` appends it to the records of its own key and leaves the others' order alone. */
  lemma {:induction false} InsertLastWithKey(t: seq<KeyedGeometry>, x: KeyedGeometry, key: real)
    ensures WithKey(InsertLast(t, x), key) == WithKey(t, key) + (if x.sortKey == key then [x] else [])
    decreases |t|
  {
    if t == [] || t[|t| - 1].sortKey <= x.sortKey {
      WithKeyAppend(t, x, key);
    } else {
      var t', last := t[..|t| - 1], t[|t| - 1];
      var rest := InsertLast(t', x);
      assert InsertLast(t, x) == rest + [last];
      assert t' + [last] == t;
      InsertLastWithKey(t', x, key);
      WithKeyAppend(rest, last, key);
      WithKeyAppend(t', last, key);
      if x.sortKey == key {
        assert WithKey(rest + [last], key) == WithKey(t', key) + [x];
      } else {
        assert WithKey(rest, key) == WithKey(t', key);
        assert WithKey(rest + [last], key) == WithKey(t, key);
      }
    }
  }

  /** Stability: for every key, the records with that key keep their original relative order. */
  lemma {:induction false} StableSortedIsStable(s: seq<KeyedGeometry>, key: real)
    ensures WithKey(StableSorted(s), key) == WithKey(s, key)
    decreases |s|
  {
    if s != [] {
      StableSortedIsStable(s[..|s| - 1], key);
      InsertLastWithKey(StableSorted(s[..|s| - 1]), s[|s| - 1], key);
    }
  }

  /**
   * If the records of `t` from `j` on all have keys greater than `x`'s, and
   * the one before `j` (if any) does not, then `x` goes exactly at `j`.
   */
  lemma {:induction false} InsertLastAt(t: seq<KeyedGeometry>, x: KeyedGeometry, j: nat)
    requires j <= |t|
    requires forall m :: j <= m < |t| ==> t[m].sortKey > x.sortKey
    requires j > 0 ==> t[j - 1].sortKey <= x.sortKey
    ensures InsertLast(t, x) == t[..j] + [x] + t[j..]
    decreases |t|
  {
    if j < |t| {
      var t' := t[..|t| - 1];
      InsertLastAt(t', x, j);
      assert t[..j] == t'[..j];
      assert t[j..] == t'[j..] + [t[|t| - 1]];
    } else {
      assert t[..j] == t;
    }
  }

  /** The records with their sort keys dropped: what each mesh is built from. */
  function Unkeys(s: seq<KeyedGeometry>): seq<GeometryData>
  {
    seq(|s|, i requires 0 <= i < |s| => Unkeyed(s[i]))
  }

  lemma {:induction false} InsertLastKeepsGeometries(t: seq<KeyedGeometry>, x: KeyedGeometry)
    ensures multiset(Unkeys(InsertLast(t, x))) == multiset(Unkeys(t)) + multiset{Unkeyed(x)}
    decreases |t|
  {
    if t == [] || t[|t| - 1].sortKey <= x.sortKey {
      assert Unkeys(t + [x]) == Unkeys(t) + [Unkeyed(x)];
    } else {
      var t', last := t[..|t| - 1], t[|t| - 1];
      var rest := InsertLast(t', x);
      InsertLastKeepsGeometries(t', x);
      assert Unkeys(rest + [last]) == Unkeys(rest) + [Unkeyed(last)];
      assert Unkeys(t) == Unkeys(t') + [Unkeyed(last)];
    }
  }

  /** Sorting moves the records around but builds the same meshes, as many times each. */
  lemma {:induction false} StableSortedKeepsGeometries(s: seq<KeyedGeometry>)
    ensures multiset(Unkeys(StableSorted(s))) == multiset(Unkeys(s))
    decreases |s|
  {
    if s != [] {
      var s', last := s[..|s| - 1], s[|s| - 1];
      StableSortedKeepsGeometries(s');
      InsertLastKeepsGeometries(StableSorted(s'), last);
      assert Unkeys(s) == Unkeys(s') + [Unkeyed(last)];
    }
  }

  /** A list that agrees with `t` before `j`, holds `x` at `j` and `t` shifted by one after it. */
  lemma Spliced(s: seq<KeyedGeometry>, t: seq<KeyedGeometry>, x: KeyedGeometry, j: nat)
    requires |s| == |t| + 1 && j <= |t|
    requires forall m :: 0 <= m < j ==> s[m] == t[m]
    requires s[j] == x
    requires forall m :: j < m < |s| ==> s[m] == t[m - 1]
    ensures s == t[..j] + [x] + t[j..]
  {
    // Proved without hints; named so callers get the splice as one fact.
  }

  /**
   * One pass of the insertion sort: `a[i]` is moved left past every record
   * of the sorted prefix with a strictly greater key.
   */
  method InsertStep(a: array<KeyedGeometry>, i: nat)
    requires i < a.Length
    modifies a
    ensures a[..i + 1] == InsertLast(old(a[..i]), old(a[i]))
    ensures a[i + 1..] == old(a[i + 1..])
  {
    ghost var t := a[..i];
    ghost var after := a[i + 1..];
    var x := a[i];
    var j := i;
    while j > 0 && a[j - 1].sortKey > x.sortKey
      invariant 0 <= j <= i
      invariant forall m :: 0 <= m < j ==> a[m] == t[m]
      invariant forall m :: j < m <= i ==> a[m] == t[m - 1]
      invariant forall m :: j <= m < i ==> t[m].sortKey > x.sortKey
      invariant a[i + 1..] == after
    {
      a[j] := a[j - 1];
      j := j - 1;
    }
    a[j] := x;
    InsertLastAt(t, x, j);
    Spliced(a[..i + 1], t, x, j);
  }

  /**
   * The sort as an in-place insertion sort: each record is moved left past
   * every record with a strictly greater key, so equal keys keep their order.
   */
  method SortByKey(a: array<KeyedGeometry>)
    modifies a
    ensures a[..] == StableSorted(old(a[..]))
  {
    ghost var input := a[..];
    for i := 0 to a.Length
      invariant a[..i] == StableSorted(input[..i])
      invariant a[i..] == input[i..]
    {
      ghost var sorted := a[..i];
      InsertStep(a, i);
      assert input[..i + 1][..i] == input[..i];
      assert a[..i + 1] == InsertLast(sorted, input[i]);
    }
    assert a[..] == a[..a.Length];
    assert input[..a.Length] == input;
  }
}
