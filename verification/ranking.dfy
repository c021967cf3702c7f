/** Ranking a population by fitness: the stable ascending sort that
    `sorted(population, key=fitness)` performs, and the first minimum that
    `min(population, key=fitness)` returns. Lower fitness is better. */
module Ranking {

  ghost predicate Sorted<T>(s: seq<T>, key: T -> real) {
    forall i, j :: 0 <= i < j < |s| ==> key(s[i]) <= key(s[j])
  }

  /** The elements of `s` whose key is `v`, in their order in `s`. Two
      orderings of the same elements are equally stable iff they agree on
      this for every `v`. */
  function WithKey<T>(s: seq<T>, key: T -> real, v: real): seq<T> {
    if |s| == 0 then []
    else (if key(s[0]) == v then [s[0]] else []) + WithKey(s[1..], key, v)
  }

  /** Inserts `x` before the first element whose key is not below `key(x)`. */
  function Insert<T>(x: T, s: seq<T>, key: T -> real): (r: seq<T>)
    ensures |r| == |s| + 1
    ensures multiset(r) == multiset(s) + multiset{x}
  {
    if |s| == 0 || key(x) <= key(s[0]) then [x] + s
    else
      assert s == [s[0]] + s[1..];
      [s[0]] + Insert(x, s[1..], key)
  }

  lemma {:induction false} InsertKeepsSorted<T>(x: T, s: seq<T>, key: T -> real)
    requires Sorted(s, key)
    ensures Sorted(Insert(x, s, key), key)
  {
    if |s| > 0 && key(x) > key(s[0]) {
      var rest := Insert(x, s[1..], key);
      InsertKeepsSorted(x, s[1..], key);
      forall i | 0 <= i < |rest|
        ensures key(s[0]) <= key(rest[i])
      {
        assert rest[i] in multiset(s[1..]) + multiset{x};
        if rest[i] != x {
          assert rest[i] in multiset(s[1..]);
          var k :| 0 <= k < |s[1..]| && s[1..][k] == rest[i];
          assert s[1..][k] == s[k + 1];
        }
      }
    }
  }

  /** Stable sort ascending by key, by insertion from the back. */
  function StableSort<T>(s: seq<T>, key: T -> real): (r: seq<T>)
    ensures |r| == |s|
    ensures multiset(r) == multiset(s)
    ensures Sorted(r, key)
  {
    if |s| == 0 then []
    else
      assert s == [s[0]] + s[1..];
      InsertKeepsSorted(s[0], StableSort(s[1..], key), key);
      Insert(s[0], StableSort(s[1..], key), key)
  }

  /** A prefix of a ranking of `pop` is drawn from `pop`, and anything in
      `pop` with a strictly lower key than some member of the prefix is
      itself in the prefix: the prefix is the top of the ranking. */
  lemma SortedPrefixIsTop<T>(s: seq<T>, key: T -> real, pop: seq<T>, m: nat)
    requires Sorted(s, key) && multiset(s) == multiset(pop) && m <= |s|
    ensures multiset(s[..m]) <= multiset(pop)
    ensures forall i, j :: 0 <= i < m && 0 <= j < |pop| && key(pop[j]) < key(s[i]) ==> pop[j] in s[..m]
  {
    assert s == s[..m] + s[m..];
    forall i, j | 0 <= i < m && 0 <= j < |pop| && key(pop[j]) < key(s[i])
      ensures pop[j] in s[..m]
    {
      assert pop[j] in multiset(s);
      var k :| 0 <= k < |s| && s[k] == pop[j];
      assert k < m;
      assert s[..m][k] == s[k];
    }
  }

  lemma WithKeyCons<T>(h: T, t: seq<T>, key: T -> real, v: real)
    ensures WithKey([h] + t, key, v) == (if key(h) == v then [h] else []) + WithKey(t, key, v)
  {
    assert ([h] + t)[0] == h && ([h] + t)[1..] == t;
  }

  lemma {:induction false} InsertWithKey<T>(x: T, s: seq<T>, key: T -> real, v: real)
    ensures WithKey(Insert(x, s, key), key, v) ==
            (if key(x) == v then [x] else []) + WithKey(s, key, v)
  {
    if |s| == 0 || key(x) <= key(s[0]) {
      WithKeyCons(x, s, key, v);
    } else {
      var h, t := s[0], s[1..];
      assert s == [h] + t;
      assert Insert(x, s, key) == [h] + Insert(x, t, key);
      WithKeyCons(h, Insert(x, t, key), key, v);
      InsertWithKey(x, t, key, v);
      WithKeyCons(h, t, key, v);
      var rest := WithKey(t, key, v);
      if key(h) == v {
        assert key(x) != v;
        assert WithKey(Insert(x, t, key), key, v) == [] + rest == rest;
        assert WithKey(Insert(x, s, key), key, v) == [h] + rest;
        assert WithKey(s, key, v) == [h] + rest;
        assert [] + ([h] + rest) == [h] + rest;
      } else {
        assert WithKey(s, key, v) == [] + rest == rest;
        assert WithKey(Insert(x, s, key), key, v) == [] + WithKey(Insert(x, t, key), key, v);
      }
    }
  }

  /** Stability: elements with equal keys keep their relative order. */
  lemma {:induction false} StableSortIsStable<T>(s: seq<T>, key: T -> real, v: real)
    ensures WithKey(StableSort(s, key), key, v) == WithKey(s, key, v)
  {
    if |s| > 0 {
      StableSortIsStable(s[1..], key, v);
      InsertWithKey(s[0], StableSort(s[1..], key), key, v);
    }
  }

  lemma WithKeyMembers<T>(s: seq<T>, key: T -> real, v: real)
    ensures forall i :: 0 <= i < |WithKey(s, key, v)| ==>
      WithKey(s, key, v)[i] in s && key(WithKey(s, key, v)[i]) == v
  {
  }

  lemma HeadKeyIsPresent<T>(s: seq<T>, key: T -> real)
    requires |s| > 0
    ensures WithKey(s, key, key(s[0])) != []
  {
  }

  /** Sortedness and stability pin the order down: two sorted sequences
      that agree on the elements of every key are equal. */
  lemma {:induction false} SortedAndStableAreEqual<T>(a: seq<T>, b: seq<T>, key: T -> real)
    requires Sorted(a, key) && Sorted(b, key)
    requires forall v :: WithKey(a, key, v) == WithKey(b, key, v)
    ensures a == b
  {
    if |a| > 0 && |b| > 0 {
      var m, n := key(a[0]), key(b[0]);
      WithKeyMembers(a, key, n);
      WithKeyMembers(b, key, m);
      assert WithKey(a, key, n)[0] in a;
      assert WithKey(b, key, m)[0] in b;
      assert m == n;
      assert a[0] == WithKey(a, key, m)[0] == WithKey(b, key, m)[0] == b[0];
      forall v
        ensures WithKey(a[1..], key, v) == WithKey(b[1..], key, v)
      {
        var head := if key(a[0]) == v then [a[0]] else [];
        assert WithKey(a, key, v) == head + WithKey(a[1..], key, v);
        assert WithKey(b, key, v) == head + WithKey(b[1..], key, v);
        assert WithKey(a, key, v) == WithKey(b, key, v);
        assert WithKey(a[1..], key, v) == (head + WithKey(a[1..], key, v))[|head|..];
      }
      SortedAndStableAreEqual(a[1..], b[1..], key);
      assert a == [a[0]] + a[1..];
      assert b == [b[0]] + b[1..];
    } else if |a| > 0 {
      HeadKeyIsPresent(a, key);
      assert false;
    } else if |b| > 0 {
      HeadKeyIsPresent(b, key);
      assert false;
    }
  }

  /** `StableSort` is THE stable ascending sort: any sorted arrangement of
      the population that keeps equal-fitness routes in input order, as
      Python's `sorted` does, is exactly its result. */
  lemma StableSortIsUnique<T>(s: seq<T>, t: seq<T>, key: T -> real)
    requires Sorted(t, key)
    requires forall v :: WithKey(t, key, v) == WithKey(s, key, v)
    ensures t == StableSort(s, key)
  {
    forall v
      ensures WithKey(t, key, v) == WithKey(StableSort(s, key), key, v)
    {
      StableSortIsStable(s, key, v);
    }
    SortedAndStableAreEqual(t, StableSort(s, key), key);
  }

  /** The least key of a non-empty sequence. */
  function MinKey<T>(s: seq<T>, key: T -> real): (m: real)
    requires |s| > 0
    ensures forall i :: 0 <= i < |s| ==> m <= key(s[i])
    ensures exists i :: 0 <= i < |s| && key(s[i]) == m
  {
    if |s| == 1 then key(s[0])
    else
      var m' := MinKey(s[1..], key);
      assert forall i :: 1 <= i < |s| ==> s[i] == s[1..][i - 1];
      if key(s[0]) <= m' then key(s[0]) else m'
  }

  /** `i` is where `min` with a key stops: a least key, and every earlier
      element has a strictly greater one. */
  ghost predicate IsFirstMinimum<T>(s: seq<T>, key: T -> real, i: int) {
    && 0 <= i < |s|
    && (forall j :: 0 <= j < |s| ==> key(s[i]) <= key(s[j]))
    && (forall j :: 0 <= j < i ==> key(s[i]) < key(s[j]))
  }

  /** `min(population, key=fitness)`: one left-to-right scan that replaces
      the candidate only on a strictly smaller key. */
  method FirstMinimum<T>(s: seq<T>, key: T -> real) returns (best: nat)
    requires |s| > 0
    ensures IsFirstMinimum(s, key, best)
  {
    best := 0;
    var i := 1;
    while i < |s|
      invariant 1 <= i <= |s|
      invariant best < i
      invariant forall j :: 0 <= j < i ==> key(s[best]) <= key(s[j])
      invariant forall j :: 0 <= j < best ==> key(s[best]) < key(s[j])
    {
      if key(s[i]) < key(s[best]) {
        best := i;
      }
      i := i + 1;
    }
  }

  /** The head of the stable sort is the first minimum: the best elite and
      the reported best route are the same route. */
  lemma {:induction false} SortHeadIsFirstMinimum<T>(s: seq<T>, key: T -> real, i: int)
    requires IsFirstMinimum(s, key, i)
    ensures StableSort(s, key)[0] == s[i]
  {
    if i == 0 {
      LeastHeadStaysFirst(s, key);
    } else {
      FirstMinimumOfTail(s, key, i);
      SortHeadIsFirstMinimum(s[1..], key, i - 1);
      var rest := StableSort(s[1..], key);
      assert StableSort(s, key) == Insert(s[0], rest, key);
      assert key(rest[0]) < key(s[0]);
    }
  }

  /** A head whose key is least is also the head after sorting. */
  lemma LeastHeadStaysFirst<T>(s: seq<T>, key: T -> real)
    requires |s| > 0
    requires forall j :: 0 <= j < |s| ==> key(s[0]) <= key(s[j])
    ensures StableSort(s, key)[0] == s[0]
  {
    var rest := StableSort(s[1..], key);
    assert StableSort(s, key) == Insert(s[0], rest, key);
    if |rest| > 0 {
      assert rest[0] in multiset(s[1..]);
      var k :| 0 <= k < |s[1..]| && s[1..][k] == rest[0];
      assert key(s[0]) <= key(s[k + 1]);
    }
  }

  /** Past a first minimum at `i > 0`, the tail has its first minimum at `i - 1`. */
  lemma FirstMinimumOfTail<T>(s: seq<T>, key: T -> real, i: int)
    requires IsFirstMinimum(s, key, i) && i > 0
    ensures IsFirstMinimum(s[1..], key, i - 1)
    ensures key(s[i]) < key(s[0])
  {
    forall j | 0 <= j < |s[1..]|
      ensures key(s[1..][i - 1]) <= key(s[1..][j])
    {
      assert s[1..][j] == s[j + 1];
    }
  }

  /** The head of the sort carries the least key. */
  lemma SortHeadHasMinKey<T>(s: seq<T>, key: T -> real)
    requires |s| > 0
    ensures key(StableSort(s, key)[0]) == MinKey(s, key)
  {
    var r := StableSort(s, key);
    var m := MinKey(s, key);
    var k :| 0 <= k < |s| && key(s[k]) == m;
    assert s[k] in multiset(r);
    var j :| 0 <= j < |r| && r[j] == s[k];
    assert key(r[0]) <= key(r[j]) == m;
    assert r[0] in multiset(s);
    var h :| 0 <= h < |s| && s[h] == r[0];
    assert m <= key(s[h]);
  }
}
