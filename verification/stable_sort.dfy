/**
 * Python's `sorted(xs, key=f, reverse=True)`: a stable sort into
 * non-increasing key order. Stability means elements with equal keys keep
 * their input order; it is stated as "for every key value, the elements
 * holding that value form the same subsequence before and after".
 */
module StableSort {

  predicate SortedDesc<T>(s: seq<T>, key: T -> int) {
    forall i, j :: 0 <= i < j < |s| ==> key(s[i]) >= key(s[j])
  }

  /** The elements whose key is `v`, in order. */
  function WithKey<T>(s: seq<T>, key: T -> int, v: int): (r: seq<T>)
    ensures |r| <= |s|
  {
    if |s| == 0 then []
    else (if key(s[0]) == v then [s[0]] else []) + WithKey(s[1..], key, v)
  }

  lemma {:induction false} WithKeyConcat<T>(a: seq<T>, b: seq<T>, key: T -> int, v: int)
    ensures WithKey(a + b, key, v) == WithKey(a, key, v) + WithKey(b, key, v)
    decreases |a|
  {
    if |a| == 0 {
      assert a + b == b;
    } else {
      WithKeyConcat(a[1..], b, key, v);
      assert (a + b)[1..] == a[1..] + b;
      assert (a + b)[0] == a[0];
    }
  }

  /** No element of `s` has key `v` when every key is below `v`. */
  lemma {:induction false} WithKeyAbove<T>(s: seq<T>, key: T -> int, v: int)
    requires forall i :: 0 <= i < |s| ==> key(s[i]) < v
    ensures WithKey(s, key, v) == []
    decreases |s|
  {
    if |s| > 0 {
      WithKeyAbove(s[1..], key, v);
    }
  }

  /** Place `x` after every element whose key is at least its own. */
  function Insert<T>(x: T, s: seq<T>, key: T -> int): (r: seq<T>)
    ensures |r| == |s| + 1
    ensures multiset(r) == multiset(s) + multiset{x}
  {
    if |s| == 0 then [x]
    else if key(s[0]) >= key(x) then
      assert s == [s[0]] + s[1..];
      [s[0]] + Insert(x, s[1..], key)
    else [x] + s
  }

  lemma {:induction false} InsertSorted<T>(x: T, s: seq<T>, key: T -> int)
    requires SortedDesc(s, key)
    ensures SortedDesc(Insert(x, s, key), key)
    decreases |s|
  {
    if |s| > 0 && key(s[0]) >= key(x) {
      InsertSorted(x, s[1..], key);
      var rest := Insert(x, s[1..], key);
      forall i | 0 <= i < |rest|
        ensures key(rest[i]) <= key(s[0])
      {
        assert rest[i] in multiset(s[1..]) + multiset{x};
        if rest[i] != x {
          assert rest[i] in s[1..];
        }
      }
      assert Insert(x, s, key) == [s[0]] + rest;
    }
  }

  /** Inserting appends `x` to the run of its key and leaves every other run alone. */
  lemma {:induction false} InsertWithKey<T>(x: T, s: seq<T>, key: T -> int, v: int)
    requires SortedDesc(s, key)
    ensures WithKey(Insert(x, s, key), key, v) == WithKey(s, key, v) + (if key(x) == v then [x] else [])
    decreases |s|
  {
    var r := Insert(x, s, key);
    if |s| == 0 {
      assert r == [x];
    } else if key(s[0]) >= key(x) {
      InsertWithKey(x, s[1..], key, v);
      assert r[0] == s[0];
      assert r[1..] == Insert(x, s[1..], key);
      calc {
        WithKey(r, key, v);
        (if key(s[0]) == v then [s[0]] else []) + WithKey(Insert(x, s[1..], key), key, v);
        (if key(s[0]) == v then [s[0]] else []) + (WithKey(s[1..], key, v) + (if key(x) == v then [x] else []));
      }
    } else {
      assert r[0] == x;
      assert r[1..] == s;
      if key(x) == v {
        WithKeyAbove(s, key, v);
      }
    }
  }

  /** `sorted(s, key=key, reverse=True)`, as an insertion sort taking the elements left to right. */
  function Sort<T>(s: seq<T>, key: T -> int): (r: seq<T>)
    ensures |r| == |s|
    ensures SortedDesc(r, key)
    ensures multiset(r) == multiset(s)
    decreases |s|
  {
    if |s| == 0 then []
    else
      var init, last := s[..|s| - 1], s[|s| - 1];
      var sorted := Sort(init, key);
      InsertSorted(last, sorted, key);
      assert multiset(s) == multiset(init) + multiset{last} by {
        assert s == init + [last];
      }
      Insert(last, sorted, key)
  }

  lemma SortUnfold<T>(s: seq<T>, key: T -> int)
    requires |s| > 0
    ensures Sort(s, key) == Insert(s[|s| - 1], Sort(s[..|s| - 1], key), key)
  {
  }

  lemma WithKeySnoc<T>(s: seq<T>, key: T -> int, v: int)
    requires |s| > 0
    ensures WithKey(s, key, v) ==
      WithKey(s[..|s| - 1], key, v) + (if key(s[|s| - 1]) == v then [s[|s| - 1]] else [])
  {
    assert s == s[..|s| - 1] + [s[|s| - 1]];
    WithKeyConcat(s[..|s| - 1], [s[|s| - 1]], key, v);
  }

  /** The sort is stable: for every key value, the elements holding it keep their input order. */
  lemma {:induction false} SortStable<T>(s: seq<T>, key: T -> int, v: int)
    ensures WithKey(Sort(s, key), key, v) == WithKey(s, key, v)
    decreases |s|
  {
    if |s| > 0 {
      var init := s[..|s| - 1];
      var last := s[|s| - 1];
      SortStable(init, key, v);
      SortUnfold(s, key);
      InsertWithKey(last, Sort(init, key), key, v);
      WithKeySnoc(s, key, v);
    }
  }

  /**
   * Sorting is determined by its contract: any non-increasing arrangement with
   * the same per-key subsequences as `s` is `Sort(s)`.
   */
  lemma {:induction false} SortUnique<T>(s: seq<T>, t: seq<T>, key: T -> int)
    requires SortedDesc(t, key)
    requires forall v :: WithKey(t, key, v) == WithKey(s, key, v)
    ensures t == Sort(s, key)
  {
    forall v
      ensures WithKey(t, key, v) == WithKey(Sort(s, key), key, v)
    {
      SortStable(s, key, v);
    }
    SortedSameRuns(t, Sort(s, key), key);
  }

  /** Two non-increasing sequences with the same per-key subsequences are equal. */
  lemma {:induction false} SortedSameRuns<T>(a: seq<T>, b: seq<T>, key: T -> int)
    requires SortedDesc(a, key) && SortedDesc(b, key)
    requires forall v :: WithKey(a, key, v) == WithKey(b, key, v)
    ensures a == b
    decreases |a| + |b|
  {
    if |a| > 0 && |b| > 0 {
      var ka := key(a[0]);
      var kb := key(b[0]);
      HeadRun(a, key);
      HeadRun(b, key);
      if ka < kb {
        WithKeyAbove(a, key, kb);
        assert false;
      } else if kb < ka {
        WithKeyAbove(b, key, ka);
        assert false;
      }
      assert a[0] == b[0] by {
        assert WithKey(a, key, ka)[0] == a[0];
        assert WithKey(b, key, ka)[0] == b[0];
      }
      forall v
        ensures WithKey(a[1..], key, v) == WithKey(b[1..], key, v)
      {
        var p := if ka == v then [a[0]] else [];
        assert WithKey(a, key, v) == p + WithKey(a[1..], key, v);
        assert WithKey(b, key, v) == p + WithKey(b[1..], key, v);
        assert WithKey(a[1..], key, v) == WithKey(a, key, v)[|p|..];
        assert WithKey(b[1..], key, v) == WithKey(b, key, v)[|p|..];
      }
      SortedSameRuns(a[1..], b[1..], key);
      assert a == [a[0]] + a[1..];
      assert b == [b[0]] + b[1..];
    } else if |a| > 0 {
      WithKeyHead(a, key);
      assert false;
    } else if |b| > 0 {
      WithKeyHead(b, key);
      assert false;
    }
  }

  /** The first element's key selects at least that element. */
  lemma WithKeyHead<T>(s: seq<T>, key: T -> int)
    requires |s| > 0
    ensures WithKey(s, key, key(s[0])) != []
  {
  }

  /** In a non-increasing sequence, the first element's key bounds every key. */
  lemma HeadRun<T>(s: seq<T>, key: T -> int)
    requires SortedDesc(s, key) && |s| > 0
    ensures forall i :: 0 <= i < |s| ==> key(s[i]) <= key(s[0])
  {
  }
}
