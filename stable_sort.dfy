/**
 * `[...xs].sort(cmp)` for a comparator that orders by an integer key
 * (`cmp(a, b)` negative, zero, positive as `key(a) - key(b)` is).  JavaScript's
 * sort is stable, so the result is the unique stable ordering by key; it is
 * computed here by insertion.
 */
module StableSort {

  /** Inserts `x` before the first element whose key is not smaller than its own. */
  function Insert<T>(x: T, s: seq<T>, key: T -> int): (r: seq<T>)
    ensures |r| == |s| + 1
  {
    if s == [] || key(x) <= key(s[0]) then [x] + s else [s[0]] + Insert(x, s[1..], key)
  }

  function Sort<T>(s: seq<T>, key: T -> int): (r: seq<T>)
    ensures |r| == |s|
  {
    if s == [] then [] else Insert(s[0], Sort(s[1..], key), key)
  }

  ghost predicate SortedBy<T>(s: seq<T>, key: T -> int) {
    forall i, j :: 0 <= i < j < |s| ==> key(s[i]) <= key(s[j])
  }

  /** The elements whose key is `k`, in the order of `s`. */
  function WithKey<T>(s: seq<T>, key: T -> int, k: int): (r: seq<T>)
    ensures |r| <= |s|
  {
    if s == [] then [] else (if key(s[0]) == k then [s[0]] else []) + WithKey(s[1..], key, k)
  }

  lemma {:induction false} InsertPermutes<T>(x: T, s: seq<T>, key: T -> int)
    ensures multiset(Insert(x, s, key)) == multiset([x] + s)
  {
    if s != [] && key(x) > key(s[0]) {
      InsertPermutes(x, s[1..], key);
      assert s == [s[0]] + s[1..];
    }
  }

  lemma {:induction false} InsertSorted<T>(x: T, s: seq<T>, key: T -> int)
    requires SortedBy(s, key)
    ensures SortedBy(Insert(x, s, key), key)
    ensures Insert(x, s, key)[0] == x || Insert(x, s, key)[0] == s[0]
  {
    if s != [] && key(x) > key(s[0]) {
      InsertSorted(x, s[1..], key);
      var t := Insert(x, s[1..], key);
      forall j | 0 <= j < |t| ensures key(s[0]) <= key(t[j]) {
        InsertPermutes(x, s[1..], key);
        assert t[j] in multiset(t);
        assert t[j] in multiset([x] + s[1..]);
        if t[j] != x {
          assert t[j] in s[1..];
        }
      }
    }
  }

  lemma {:induction false} InsertStable<T>(x: T, s: seq<T>, key: T -> int, k: int)
    ensures WithKey(Insert(x, s, key), key, k) == WithKey([x] + s, key, k)
  {
    if s != [] && key(x) > key(s[0]) {
      InsertStable(x, s[1..], key, k);
      assert ([x] + s)[1..] == s;
      assert ([x] + s[1..])[1..] == s[1..];
      assert ([s[0]] + Insert(x, s[1..], key))[1..] == Insert(x, s[1..], key);
      if key(x) == k {
        assert WithKey(s, key, k) == WithKey(s[1..], key, k);
      }
    } else {
      assert Insert(x, s, key) == [x] + s;
    }
  }

  /** The output is a permutation of the input. */
  lemma {:induction false} SortPermutes<T>(s: seq<T>, key: T -> int)
    ensures multiset(Sort(s, key)) == multiset(s)
  {
    if s != [] {
      SortPermutes(s[1..], key);
      InsertPermutes(s[0], Sort(s[1..], key), key);
      assert s == [s[0]] + s[1..];
    }
  }

  /** The output is ordered by key. */
  lemma {:induction false} SortSorted<T>(s: seq<T>, key: T -> int)
    ensures SortedBy(Sort(s, key), key)
  {
    if s != [] {
      SortSorted(s[1..], key);
      InsertSorted(s[0], Sort(s[1..], key), key);
    }
  }

  /** Elements with equal keys keep their input order. */
  lemma {:induction false} SortStable<T>(s: seq<T>, key: T -> int, k: int)
    ensures WithKey(Sort(s, key), key, k) == WithKey(s, key, k)
  {
    if s != [] {
      SortStable(s[1..], key, k);
      InsertStable(s[0], Sort(s[1..], key), key, k);
      assert ([s[0]] + Sort(s[1..], key))[1..] == Sort(s[1..], key);
    }
  }

  /** Sorting an already ordered sequence changes nothing. */
  lemma {:induction false} SortOfSorted<T>(s: seq<T>, key: T -> int)
    requires SortedBy(s, key)
    ensures Sort(s, key) == s
  {
    if s != [] {
      assert SortedBy(s[1..], key);
      SortOfSorted(s[1..], key);
    }
  }

  /** Sorting twice is sorting once. */
  lemma SortIdempotent<T>(s: seq<T>, key: T -> int)
    ensures Sort(Sort(s, key), key) == Sort(s, key)
  {
    SortSorted(s, key);
    SortOfSorted(Sort(s, key), key);
  }

  lemma {:induction false} WithKeyHead<T>(s: seq<T>, key: T -> int)
    requires s != []
    ensures WithKey(s, key, key(s[0])) == [s[0]] + WithKey(s[1..], key, key(s[0]))
  {
  }

  lemma {:induction false} WithKeyMember<T>(s: seq<T>, key: T -> int, k: int, x: T)
    requires x in WithKey(s, key, k)
    ensures x in s && key(x) == k
  {
    if s != [] {
      if key(s[0]) == k && x == s[0] {
      } else {
        assert x in WithKey(s[1..], key, k);
        WithKeyMember(s[1..], key, k, x);
      }
    }
  }

  /**
   * Ordered by key and stable characterise the result completely: any two
   * sequences with both properties and the same elements per key are equal.
   * So `Sort` is what every stable sort with this comparator returns.
   */
  lemma {:induction false} OrderedStableIsUnique<T>(t: seq<T>, u: seq<T>, key: T -> int)
    requires SortedBy(t, key) && SortedBy(u, key)
    requires forall k :: WithKey(t, key, k) == WithKey(u, key, k)
    ensures t == u
    decreases |t| + |u|
  {
    if t == [] && u == [] {
    } else if t == [] {
      WithKeyHead(u, key);
      assert false;
    } else if u == [] {
      WithKeyHead(t, key);
      assert false;
    } else {
      var k0, k1 := key(t[0]), key(u[0]);
      WithKeyHead(t, key);
      WithKeyHead(u, key);
      if k0 < k1 {
        assert t[0] in WithKey(u, key, k0);
        WithKeyMember(u, key, k0, t[0]);
        assert false;
      } else if k1 < k0 {
        assert u[0] in WithKey(t, key, k1);
        WithKeyMember(t, key, k1, u[0]);
        assert false;
      } else {
        assert WithKey(t, key, k0) == WithKey(u, key, k0);
        assert t[0] == WithKey(t, key, k0)[0] == u[0];
        forall k ensures WithKey(t[1..], key, k) == WithKey(u[1..], key, k) {
          assert WithKey(t, key, k) == WithKey(u, key, k);
          assert WithKey(t, key, k) == (if key(t[0]) == k then [t[0]] else []) + WithKey(t[1..], key, k);
          assert WithKey(u, key, k) == (if key(u[0]) == k then [u[0]] else []) + WithKey(u[1..], key, k);
          if key(t[0]) == k {
            assert WithKey(t[1..], key, k) == WithKey(t, key, k)[1..];
            assert WithKey(u[1..], key, k) == WithKey(u, key, k)[1..];
          } else {
            assert key(u[0]) != k;
            assert WithKey(t[1..], key, k) == WithKey(t, key, k);
            assert WithKey(u[1..], key, k) == WithKey(u, key, k);
          }
        }
        assert SortedBy(t[1..], key) && SortedBy(u[1..], key);
        OrderedStableIsUnique(t[1..], u[1..], key);
        assert t == [t[0]] + t[1..] && u == [u[0]] + u[1..];
      }
    }
  }

  /** Any ordered, stable rearrangement of `s` is `Sort(s)`. */
  lemma SortIsTheStableOrdering<T>(s: seq<T>, t: seq<T>, key: T -> int)
    requires SortedBy(t, key)
    requires forall k :: WithKey(t, key, k) == WithKey(s, key, k)
    ensures t == Sort(s, key)
  {
    SortSorted(s, key);
    forall k ensures WithKey(t, key, k) == WithKey(Sort(s, key), key, k) {
      SortStable(s, key, k);
    }
    OrderedStableIsUnique(t, Sort(s, key), key);
  }
}
