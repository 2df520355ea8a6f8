/** The array operations the form widgets are built from: `filter` by value
    and by index, and the no-duplicates property the tag list keeps. */
module Lists {
  /** `s.filter(t => t !== x)`. */
  function Without<T(==)>(s: seq<T>, x: T): seq<T>
    decreases |s|
  {
    if s == [] then []
    else Without(s[..|s| - 1], x) + (if s[|s| - 1] == x then [] else [s[|s| - 1]])
  }

  /** Filtering by value keeps exactly the other elements, each as often as before. */
  lemma {:induction false} WithoutCounts<T>(s: seq<T>, x: T)
    ensures multiset(Without(s, x)) == multiset(s)[x := 0]
    decreases |s|
  {
    if s != [] {
      var init, last := s[..|s| - 1], s[|s| - 1];
      WithoutCounts(init, x);
      assert s == init + [last];
    }
  }

  lemma WithoutMembers<T>(s: seq<T>, x: T, y: T)
    ensures y in Without(s, x) <==> y in s && y != x
  {
    WithoutCounts(s, x);
    assert y in multiset(Without(s, x)) <==> y in multiset(s)[x := 0];
  }

  /** Filtering works piece by piece, so the kept elements stay in order. */
  lemma {:induction false} WithoutAppend<T>(a: seq<T>, b: seq<T>, x: T)
    ensures Without(a + b, x) == Without(a, x) + Without(b, x)
    decreases |b|
  {
    if b != [] {
      var init, last := b[..|b| - 1], b[|b| - 1];
      assert (a + b)[..|a + b| - 1] == a + init;
      WithoutAppend(a, init, x);
    } else {
      assert a + b == a;
    }
  }

  /** A list without `x` is left as it is. */
  lemma {:induction false} WithoutAbsent<T>(s: seq<T>, x: T)
    requires x !in s
    ensures Without(s, x) == s
    decreases |s|
  {
    if s != [] {
      var init := s[..|s| - 1];
      assert x !in init by {
        assert forall k | 0 <= k < |init| :: init[k] == s[k];
      }
      WithoutAbsent(init, x);
    }
  }

  /** `s.filter((_, j) => j !== i)`. */
  function WithoutIndex<T>(s: seq<T>, i: int): seq<T>
    decreases |s|
  {
    if s == [] then []
    else WithoutIndex(s[..|s| - 1], i) + (if |s| - 1 == i then [] else [s[|s| - 1]])
  }

  /** Filtering by index removes exactly the element at an index in range,
      and nothing for one out of range. */
  lemma {:induction false} WithoutIndexSlices<T>(s: seq<T>, i: int)
    ensures 0 <= i < |s| ==> WithoutIndex(s, i) == s[..i] + s[i + 1..]
    ensures !(0 <= i < |s|) ==> WithoutIndex(s, i) == s
    decreases |s|
  {
    if s != [] {
      var init := s[..|s| - 1];
      WithoutIndexSlices(init, i);
      if i == |s| - 1 {
        assert s[i + 1..] == [];
        assert s[..i] == init;
      } else if 0 <= i < |s| - 1 {
        assert init[..i] == s[..i];
        assert init[i + 1..] + [s[|s| - 1]] == s[i + 1..];
      } else {
        assert init + [s[|s| - 1]] == s;
      }
    }
  }

  /** No element occurs twice. */
  ghost predicate NoDup<T>(s: seq<T>) {
    forall i, j | 0 <= i < j < |s| :: s[i] != s[j]
  }

  lemma NoDupAppend<T>(s: seq<T>, x: T)
    requires NoDup(s) && x !in s
    ensures NoDup(s + [x])
  {
    var t := s + [x];
    forall i, j | 0 <= i < j < |t| ensures t[i] != t[j] {
      if j == |s| {
        assert t[i] == s[i];
      } else {
        assert t[i] == s[i] && t[j] == s[j];
      }
    }
  }

  lemma NoDupUpdate<T>(s: seq<T>, i: int, x: T)
    requires NoDup(s) && x !in s && 0 <= i < |s|
    ensures NoDup(s[i := x])
  {
    var t := s[i := x];
    forall a, b | 0 <= a < b < |t| ensures t[a] != t[b] {
      if a == i {
        assert t[b] == s[b];
      } else if b == i {
        assert t[a] == s[a];
      } else {
        assert t[a] == s[a] && t[b] == s[b];
      }
    }
  }

  lemma {:induction false} NoDupWithout<T>(s: seq<T>, x: T)
    requires NoDup(s)
    ensures NoDup(Without(s, x))
    decreases |s|
  {
    if s != [] {
      var init, last := s[..|s| - 1], s[|s| - 1];
      assert NoDup(init) by {
        forall i, j | 0 <= i < j < |init| ensures init[i] != init[j] {
          assert init[i] == s[i] && init[j] == s[j];
        }
      }
      NoDupWithout(init, x);
      if last != x {
        assert last !in init by {
          forall k | 0 <= k < |init| ensures init[k] != last {
            assert init[k] == s[k];
          }
        }
        WithoutMembers(init, x, last);
        NoDupAppend(Without(init, x), last);
      }
    }
  }

  lemma NoDupWithoutIndex<T>(s: seq<T>, i: int)
    requires NoDup(s)
    ensures NoDup(WithoutIndex(s, i))
  {
    WithoutIndexSlices(s, i);
    if 0 <= i < |s| {
      var t := WithoutIndex(s, i);
      forall a, b | 0 <= a < b < |t| ensures t[a] != t[b] {
        var a', b' := if a < i then a else a + 1, if b < i then b else b + 1;
        assert t[a] == s[a'] && t[b] == s[b'];
      }
    }
  }
}
