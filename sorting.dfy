/** A stable sort driven by a comparator in the JavaScript and Python style
    (negative, zero or positive), as both `Array.prototype.sort` with a
    comparator and Python's `sorted` with a key behave: the result is a
    permutation of the input, ordered by the comparator, and elements the
    comparator calls equal keep their input order. */
module Sorting {

  function Sign(x: int): int {
    if x < 0 then -1 else if x > 0 then 1 else 0
  }

  /** `a` is not greater than `b`. */
  ghost predicate Le<T>(cmp: (T, T) -> int, a: T, b: T) {
    cmp(a, b) <= 0
  }

  /** `cmp` is a consistent comparator on the elements of `s`: swapping the
      arguments flips the sign, and "not greater" is transitive. */
  ghost predicate ConsistentOn<T>(cmp: (T, T) -> int, s: seq<T>) {
    && (forall a, b {:trigger cmp(a, b)} | a in s && b in s :: Sign(cmp(a, b)) == -Sign(cmp(b, a)))
    && (forall a, b, c {:trigger Le(cmp, a, b), Le(cmp, b, c)} | a in s && b in s && c in s ::
          Le(cmp, a, b) && Le(cmp, b, c) ==> Le(cmp, a, c))
  }

  lemma LeTransitive<T>(cmp: (T, T) -> int, s: seq<T>, a: T, b: T, c: T)
    requires ConsistentOn(cmp, s)
    requires a in s && b in s && c in s
    requires cmp(a, b) <= 0 && cmp(b, c) <= 0
    ensures cmp(a, c) <= 0
  {
    assert Le(cmp, a, b) && Le(cmp, b, c);
  }

  /** Every element is not greater than every later one. */
  ghost predicate Sorted<T>(s: seq<T>, cmp: (T, T) -> int) {
    forall i, j :: 0 <= i < j < |s| ==> cmp(s[i], s[j]) <= 0
  }

  /** Inserts `x` in front of the first element it is strictly less than,
      that is, behind every element that is not greater than it. */
  function Insert<T>(s: seq<T>, x: T, cmp: (T, T) -> int): (r: seq<T>)
    ensures |r| == |s| + 1
  {
    if s == [] then [x]
    else if cmp(x, s[0]) < 0 then [x] + s
    else [s[0]] + Insert(s[1..], x, cmp)
  }

  /** Insertion sort of `s`, taking the elements in input order. */
  function Sort<T>(s: seq<T>, cmp: (T, T) -> int): (r: seq<T>)
    ensures |r| == |s|
  {
    if s == [] then []
    else Insert(Sort(s[..|s| - 1], cmp), s[|s| - 1], cmp)
  }

  /** Insertion adds exactly `x`. */
  lemma {:induction false} InsertPermutation<T>(s: seq<T>, x: T, cmp: (T, T) -> int)
    ensures multiset(Insert(s, x, cmp)) == multiset(s) + multiset{x}
  {
    if s != [] && cmp(x, s[0]) >= 0 {
      InsertPermutation(s[1..], x, cmp);
      assert s == [s[0]] + s[1..];
    }
  }

  /** Sorting neither loses nor duplicates elements. */
  lemma {:induction false} SortPermutation<T>(s: seq<T>, cmp: (T, T) -> int)
    ensures multiset(Sort(s, cmp)) == multiset(s)
  {
    if s != [] {
      SortPermutation(s[..|s| - 1], cmp);
      InsertPermutation(Sort(s[..|s| - 1], cmp), s[|s| - 1], cmp);
      assert s == s[..|s| - 1] + [s[|s| - 1]];
    }
  }

  /** The elements of `s` that `cmp` calls equal to `z`, in their order. */
  function Equivalents<T>(s: seq<T>, z: T, cmp: (T, T) -> int): seq<T> {
    if s == [] then []
    else (if cmp(z, s[0]) == 0 then [s[0]] else []) + Equivalents(s[1..], z, cmp)
  }

  /** Every element of `t` occurs in `s`. */
  ghost predicate SubsetOf<T>(t: seq<T>, s: seq<T>) {
    forall k | 0 <= k < |t| :: t[k] in s
  }

  lemma ConsistentOnSubset<T>(cmp: (T, T) -> int, s: seq<T>, t: seq<T>)
    requires ConsistentOn(cmp, s)
    requires SubsetOf(t, s)
    ensures ConsistentOn(cmp, t)
  {
  }

  lemma {:induction false} EquivalentsAppend<T>(a: seq<T>, b: seq<T>, z: T, cmp: (T, T) -> int)
    ensures Equivalents(a + b, z, cmp) == Equivalents(a, z, cmp) + Equivalents(b, z, cmp)
    decreases |a|
  {
    if a == [] {
      assert a + b == b;
    } else {
      var h := if cmp(z, a[0]) == 0 then [a[0]] else [];
      assert a + b == [a[0]] + (a[1..] + b);
      calc {
        Equivalents(a + b, z, cmp);
        { EquivalentsCons(a[0], a[1..] + b, z, cmp); }
        h + Equivalents(a[1..] + b, z, cmp);
        { EquivalentsAppend(a[1..], b, z, cmp); }
        h + (Equivalents(a[1..], z, cmp) + Equivalents(b, z, cmp));
        { AppendAssoc(h, Equivalents(a[1..], z, cmp), Equivalents(b, z, cmp)); }
        (h + Equivalents(a[1..], z, cmp)) + Equivalents(b, z, cmp);
        { EquivalentsCons(a[0], a[1..], z, cmp); assert a == [a[0]] + a[1..]; }
        Equivalents(a, z, cmp) + Equivalents(b, z, cmp);
      }
    }
  }

  /** The elements of `Insert(s, x, cmp)` are those of `s` and `x`. */
  lemma InsertMembers<T>(s: seq<T>, x: T, cmp: (T, T) -> int)
    ensures forall k | 0 <= k < |Insert(s, x, cmp)| :: Insert(s, x, cmp)[k] == x || Insert(s, x, cmp)[k] in s
  {
    var r := Insert(s, x, cmp);
    InsertPermutation(s, x, cmp);
    forall k | 0 <= k < |r| ensures r[k] == x || r[k] in s {
      assert r[k] in multiset(r);
    }
  }

  /** The elements of `Sort(s, cmp)` are those of `s`. */
  lemma SortMembers<T>(s: seq<T>, cmp: (T, T) -> int)
    ensures SubsetOf(Sort(s, cmp), s)
  {
    var r := Sort(s, cmp);
    SortPermutation(s, cmp);
    forall k | 0 <= k < |r| ensures r[k] in s {
      assert r[k] in multiset(r);
    }
  }

  lemma SubsetOfSlice<T>(s: seq<T>, i: int, j: int)
    requires 0 <= i <= j <= |s|
    ensures SubsetOf(s[i..j], s)
  {
    forall k | 0 <= k < j - i ensures s[i..j][k] in s {
      assert s[i..j][k] == s[i + k];
    }
  }

  lemma SubsetOfAppend<T>(t: seq<T>, s: seq<T>, extra: seq<T>)
    requires SubsetOf(t, s)
    ensures SubsetOf(t + extra, s + extra)
  {
    forall k | 0 <= k < |t + extra| ensures (t + extra)[k] in s + extra {
      if k < |t| {
        assert (t + extra)[k] == t[k] && t[k] in s;
        var m :| 0 <= m < |s| && s[m] == t[k];
        assert (s + extra)[m] == t[k];
      } else {
        assert (s + extra)[|s| + k - |t|] == (t + extra)[k];
      }
    }
  }

  lemma SortedCons<T>(h: T, t: seq<T>, cmp: (T, T) -> int)
    requires Sorted(t, cmp)
    requires forall k | 0 <= k < |t| :: cmp(h, t[k]) <= 0
    ensures Sorted([h] + t, cmp)
  {
    var r := [h] + t;
    forall i, j | 0 <= i < j < |r| ensures cmp(r[i], r[j]) <= 0 {
      assert r[j] == t[j - 1];
      if i > 0 {
        assert r[i] == t[i - 1];
      }
    }
  }

  lemma EquivalentsCons<T>(h: T, t: seq<T>, z: T, cmp: (T, T) -> int)
    ensures Equivalents([h] + t, z, cmp) == (if cmp(z, h) == 0 then [h] else []) + Equivalents(t, z, cmp)
  {
    assert ([h] + t)[1..] == t;
  }

  lemma {:induction false} InsertSorted<T>(s: seq<T>, x: T, cmp: (T, T) -> int)
    requires Sorted(s, cmp)
    requires ConsistentOn(cmp, s + [x])
    ensures Sorted(Insert(s, x, cmp), cmp)
  {
    if s == [] {
    } else if cmp(x, s[0]) < 0 {
      InsertSortedFront(s, x, cmp);
    } else {
      var tail := s[1..];
      assert tail + [x] == (s + [x])[1..|s| + 1];
      SubsetOfSlice(s + [x], 1, |s| + 1);
      ConsistentOnSubset(cmp, s + [x], tail + [x]);
      SortedSlice(s, 1, cmp);
      InsertSorted(tail, x, cmp);
      assert s[0] in s + [x] && x in s + [x];
      Flip(cmp, s + [x], x, s[0]);
      InsertSortedStep(s, x, cmp);
    }
  }

  lemma Flip<T>(cmp: (T, T) -> int, s: seq<T>, a: T, b: T)
    requires ConsistentOn(cmp, s)
    requires a in s && b in s
    ensures Sign(cmp(a, b)) == -Sign(cmp(b, a))
  {
  }

  lemma InsertSortedFront<T>(s: seq<T>, x: T, cmp: (T, T) -> int)
    requires s != [] && Sorted(s, cmp)
    requires ConsistentOn(cmp, s + [x])
    requires cmp(x, s[0]) < 0
    ensures Sorted(Insert(s, x, cmp), cmp)
  {
    forall k | 0 <= k < |s| ensures cmp(x, s[k]) <= 0 {
      if k > 0 {
        assert cmp(s[0], s[k]) <= 0;
        assert x in s + [x] && s[0] in s + [x] && s[k] in s + [x];
        LeTransitive(cmp, s + [x], x, s[0], s[k]);
      }
    }
    SortedCons(x, s, cmp);
  }

  lemma InsertSortedStep<T>(s: seq<T>, x: T, cmp: (T, T) -> int)
    requires s != [] && Sorted(s, cmp)
    requires cmp(x, s[0]) >= 0 && cmp(s[0], x) <= 0
    requires Sorted(Insert(s[1..], x, cmp), cmp)
    ensures Sorted(Insert(s, x, cmp), cmp)
  {
    var tail := s[1..];
    var ins := Insert(tail, x, cmp);
    InsertMembers(tail, x, cmp);
    forall k | 0 <= k < |ins| ensures cmp(s[0], ins[k]) <= 0 {
      var y := ins[k];
      if y != x {
        var m :| 0 <= m < |tail| && tail[m] == y;
        assert s[m + 1] == y;
      }
    }
    SortedCons(s[0], ins, cmp);
    assert Insert(s, x, cmp) == [s[0]] + ins;
  }

  lemma {:induction false} SortSorted<T>(s: seq<T>, cmp: (T, T) -> int)
    requires ConsistentOn(cmp, s)
    ensures Sorted(Sort(s, cmp), cmp)
    decreases |s|
  {
    if s != [] {
      var init := s[..|s| - 1];
      var last := s[|s| - 1];
      assert init == s[0..|s| - 1];
      SubsetOfSlice(s, 0, |s| - 1);
      ConsistentOnSubset(cmp, s, init);
      SortSorted(init, cmp);
      var sorted := Sort(init, cmp);
      SortMembers(init, cmp);
      SubsetOfAppend(sorted, init, [last]);
      assert s == init + [last];
      ConsistentOnSubset(cmp, s, sorted + [last]);
      InsertSorted(sorted, last, cmp);
    }
  }

  /** No element of a sorted list is equivalent to an element strictly less
      than its head. */
  lemma {:induction false} NoEquivalentsAbove<T>(s: seq<T>, y: T, z: T, cmp: (T, T) -> int)
    requires s != [] && Sorted(s, cmp)
    requires ConsistentOn(cmp, s + [y, z])
    requires cmp(y, s[0]) < 0 && cmp(z, y) == 0
    ensures Equivalents(s, z, cmp) == []
  {
    var all := s + [y, z];
    assert y in all && z in all;
    forall j | 0 <= j < |s| ensures cmp(z, s[j]) != 0 {
      assert s[0] in all && s[j] in all;
      assert cmp(s[0], s[j]) <= 0;
      assert cmp(s[0], y) > 0;
      assert cmp(y, z) == 0;
      if cmp(s[j], z) <= 0 {
        LeTransitive(cmp, all, s[j], z, y);
        LeTransitive(cmp, all, s[0], s[j], y);
      }
    }
    EquivalentsNone(s, z, cmp);
  }

  lemma {:induction false} EquivalentsNone<T>(s: seq<T>, z: T, cmp: (T, T) -> int)
    requires forall j :: 0 <= j < |s| ==> cmp(z, s[j]) != 0
    ensures Equivalents(s, z, cmp) == []
  {
    if s != [] {
      EquivalentsNone(s[1..], z, cmp);
    }
  }

  /** Inserting `y` into a sorted list puts it behind every element already
      equivalent to it. */
  lemma {:induction false} InsertStable<T>(s: seq<T>, y: T, z: T, cmp: (T, T) -> int)
    requires Sorted(s, cmp)
    requires ConsistentOn(cmp, s + [y, z])
    ensures Equivalents(Insert(s, y, cmp), z, cmp)
            == Equivalents(s, z, cmp) + (if cmp(z, y) == 0 then [y] else [])
  {
    if s == [] {
      EquivalentsCons(y, [], z, cmp);
      assert [y] + [] == [y];
    } else if cmp(y, s[0]) < 0 {
      EquivalentsCons(y, s, z, cmp);
      if cmp(z, y) == 0 {
        NoEquivalentsAbove(s, y, z, cmp);
      }
    } else {
      var tail := s[1..];
      assert tail + [y, z] == (s + [y, z])[1..|s| + 2];
      SubsetOfSlice(s + [y, z], 1, |s| + 2);
      ConsistentOnSubset(cmp, s + [y, z], tail + [y, z]);
      SortedSlice(s, 1, cmp);
      InsertStable(tail, y, z, cmp);
      InsertStableStep(s, y, z, cmp);
    }
  }

  lemma InsertStableStep<T>(s: seq<T>, y: T, z: T, cmp: (T, T) -> int)
    requires s != [] && cmp(y, s[0]) >= 0
    requires Equivalents(Insert(s[1..], y, cmp), z, cmp)
             == Equivalents(s[1..], z, cmp) + (if cmp(z, y) == 0 then [y] else [])
    ensures Equivalents(Insert(s, y, cmp), z, cmp)
            == Equivalents(s, z, cmp) + (if cmp(z, y) == 0 then [y] else [])
  {
    var tail := s[1..];
    var ins := Insert(tail, y, cmp);
    var h := if cmp(z, s[0]) == 0 then [s[0]] else [];
    var e := if cmp(z, y) == 0 then [y] else [];
    assert Insert(s, y, cmp) == [s[0]] + ins;
    assert s == [s[0]] + tail;
    calc {
      Equivalents(Insert(s, y, cmp), z, cmp);
      { EquivalentsCons(s[0], ins, z, cmp); }
      h + Equivalents(ins, z, cmp);
      h + (Equivalents(tail, z, cmp) + e);
      { AppendAssoc(h, Equivalents(tail, z, cmp), e); }
      (h + Equivalents(tail, z, cmp)) + e;
      { EquivalentsCons(s[0], tail, z, cmp); }
      Equivalents(s, z, cmp) + e;
    }
  }

  lemma AppendAssoc<T>(a: seq<T>, b: seq<T>, c: seq<T>)
    ensures a + (b + c) == (a + b) + c
  {
  }

  lemma SortedSlice<T>(s: seq<T>, k: int, cmp: (T, T) -> int)
    requires 0 <= k <= |s| && Sorted(s, cmp)
    ensures Sorted(s[k..], cmp)
  {
    var t := s[k..];
    forall i, j | 0 <= i < j < |t| ensures cmp(t[i], t[j]) <= 0 {
      assert t[i] == s[k + i] && t[j] == s[k + j];
    }
  }

  /** Sorting keeps the relative order of equivalent elements. */
  lemma {:induction false} SortStable<T>(s: seq<T>, z: T, cmp: (T, T) -> int)
    requires ConsistentOn(cmp, s + [z])
    ensures Equivalents(Sort(s, cmp), z, cmp) == Equivalents(s, z, cmp)
    decreases |s|
  {
    if s != [] {
      var init := s[..|s| - 1];
      var last := s[|s| - 1];
      assert s == init + [last];
      assert init == s[0..|s| - 1];
      SubsetOfSlice(s, 0, |s| - 1);
      SubsetOfAppend(init, s, [z]);
      ConsistentOnSubset(cmp, s + [z], init + [z]);
      SortStable(init, z, cmp);
      assert init == (init + [z])[0..|init|];
      SubsetOfSlice(init + [z], 0, |init|);
      ConsistentOnSubset(cmp, init + [z], init);
      SortSorted(init, cmp);
      var sorted := Sort(init, cmp);
      SortMembers(init, cmp);
      SubsetOfAppend(sorted, init, [last, z]);
      assert init + [last, z] == s + [z];
      ConsistentOnSubset(cmp, s + [z], sorted + [last, z]);
      InsertStable(sorted, last, z, cmp);
      EquivalentsAppend(init, [last], z, cmp);
      EquivalentsCons(last, [], z, cmp);
      assert [last] + [] == [last];
    }
  }
}
