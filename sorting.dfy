/** Ordering by a three-part key, the way the ranking pages order their rows:
    a primary count high to low, then a secondary count high to low, then
    an id low to high. */
module Sorting {

  datatype Rank = Rank(primary: int, secondary: int, id: int)

  /** `a` may stand before `b`. */
  predicate RankLe(a: Rank, b: Rank) {
    || a.primary > b.primary
    || (a.primary == b.primary && a.secondary > b.secondary)
    || (a.primary == b.primary && a.secondary == b.secondary && a.id <= b.id)
  }

  /** Every element may stand before every later one. */
  ghost predicate SortedBy<T>(s: seq<T>, key: T -> Rank) {
    forall i, j :: 0 <= i < j < |s| ==> RankLe(key(s[i]), key(s[j]))
  }

  /** Elements of `s` with the same key are the same element (as when the
      key holds a primary key). */
  ghost predicate KeyInjective<T>(s: seq<T>, key: T -> Rank) {
    forall x, y :: x in s && y in s && key(x) == key(y) ==> x == y
  }

  /** Puts `x` in front of the first element it may stand before; so `x`
      goes ahead of the elements whose key equals its own. */
  function Insert<T(==)>(x: T, s: seq<T>, key: T -> Rank): (r: seq<T>)
    requires SortedBy(s, key)
    ensures multiset(r) == multiset(s) + multiset{x}
    ensures SortedBy(r, key)
  {
    if s == [] || RankLe(key(x), key(s[0])) then
      [x] + s
    else
      var rest := Insert(x, s[1..], key);
      assert forall k :: 0 <= k < |rest| ==> RankLe(key(s[0]), key(rest[k])) by {
        forall k | 0 <= k < |rest|
          ensures RankLe(key(s[0]), key(rest[k]))
        {
          assert rest[k] in multiset(rest);
          if rest[k] != x {
            assert rest[k] in multiset(s[1..]);
            var m :| 0 <= m < |s[1..]| && s[1..][m] == rest[k];
            assert s[1 + m] == rest[k];
          }
        }
      }
      assert s == [s[0]] + s[1..];
      [s[0]] + rest
  }

  /** Insertion sort; being built from `Insert`, it keeps equal-key
      elements in their input order. */
  function SortBy<T(==)>(s: seq<T>, key: T -> Rank): (r: seq<T>)
    ensures multiset(r) == multiset(s)
    ensures SortedBy(r, key)
  {
    if s == [] then
      []
    else
      assert s == [s[0]] + s[1..];
      Insert(s[0], SortBy(s[1..], key), key)
  }

  lemma SortedTail<T>(s: seq<T>, key: T -> Rank)
    requires |s| > 0 && SortedBy(s, key)
    ensures SortedBy(s[1..], key)
  {
    forall i, j | 0 <= i < j < |s| - 1
      ensures RankLe(key(s[1..][i]), key(s[1..][j]))
    {
      assert s[1..][i] == s[i + 1] && s[1..][j] == s[j + 1];
    }
  }

  /** In a sorted sequence an element with a higher primary key comes first. */
  lemma PrimaryFirst<T>(s: seq<T>, key: T -> Rank, i: int, j: int)
    requires SortedBy(s, key)
    requires 0 <= i < |s| && 0 <= j < |s| && key(s[i]).primary > key(s[j]).primary
    ensures i < j
  {
    assert !RankLe(key(s[j]), key(s[i]));
  }

  /** Two sorted arrangements of the same elements are the same sequence
      when no two different elements share a key: the order is fully
      determined, whatever algorithm produced it. */
  lemma {:induction false} SortedUnique<T>(a: seq<T>, b: seq<T>, key: T -> Rank)
    requires SortedBy(a, key) && SortedBy(b, key)
    requires multiset(a) == multiset(b)
    requires KeyInjective(a, key)
    ensures a == b
    decreases |a|
  {
    assert |b| == |multiset(b)| == |a|;
    if a != [] {
      assert a[0] in multiset(b) && b[0] in multiset(a);
      var j :| 0 <= j < |b| && b[j] == a[0];
      var i :| 0 <= i < |a| && a[i] == b[0];
      assert RankLe(key(a[0]), key(b[0])) by {
        if i > 0 { assert RankLe(key(a[0]), key(a[i])); }
      }
      assert RankLe(key(b[0]), key(a[0])) by {
        if j > 0 { assert RankLe(key(b[0]), key(b[j])); }
      }
      assert a[0] == b[0];
      assert a == [a[0]] + a[1..];
      assert b == [b[0]] + b[1..];
      assert multiset(a[1..]) == multiset(b[1..]) by {
        assert multiset(a[1..]) == multiset(a) - multiset{a[0]};
        assert multiset(b[1..]) == multiset(b) - multiset{b[0]};
      }
      SortedTail(a, key);
      SortedTail(b, key);
      SortedUnique(a[1..], b[1..], key);
    }
  }

  /** `ORDER BY … LIMIT k`: the first `k` elements of `s` in key order. */
  function TakeTop<T(==)>(s: seq<T>, k: int, key: T -> Rank): (r: seq<T>)
    ensures |r| == if k < 0 then 0 else if k < |s| then k else |s|
    ensures SortedBy(r, key)
    ensures multiset(r) <= multiset(s)
    ensures forall x, y :: x in r && y in s && y !in r ==> RankLe(key(x), key(y))
  {
    var sorted := SortBy(s, key);
    var m := if k < 0 then 0 else if k < |s| then k else |s|;
    assert |sorted| == |multiset(sorted)| == |s|;
    SortedPrefix(s, sorted, m, key);
    sorted[..m]
  }

  /** A prefix of a sorted arrangement of `s` is drawn from `s` and ranks
      at or above every element of `s` it leaves out. */
  lemma SortedPrefix<T>(s: seq<T>, sorted: seq<T>, m: nat, key: T -> Rank)
    requires multiset(sorted) == multiset(s) && SortedBy(sorted, key)
    requires m <= |sorted|
    ensures SortedBy(sorted[..m], key)
    ensures multiset(sorted[..m]) <= multiset(s)
    ensures forall x, y :: x in sorted[..m] && y in s && y !in sorted[..m] ==> RankLe(key(x), key(y))
  {
    var p := sorted[..m];
    assert sorted == p + sorted[m..];
    forall x, y | x in p && y in s && y !in p
      ensures RankLe(key(x), key(y))
    {
      assert y in multiset(sorted);
      var j :| 0 <= j < |sorted| && sorted[j] == y;
      var i :| 0 <= i < m && p[i] == x;
      assert sorted[i] == x;
      assert j >= m;
    }
  }

  /** Injectivity of the key depends only on which elements there are. */
  lemma KeyInjectivePermutation<T>(a: seq<T>, b: seq<T>, key: T -> Rank)
    requires multiset(a) == multiset(b)
    requires KeyInjective(a, key)
    ensures KeyInjective(b, key)
  {
    forall x, y | x in b && y in b && key(x) == key(y) ensures x == y {
      assert x in multiset(b) && y in multiset(b);
      assert x in a && y in a;
    }
  }

  /** With no ties, `ORDER BY … LIMIT k` does not depend on the order the
      rows come in. */
  lemma TakeTopPermutation<T>(a: seq<T>, b: seq<T>, k: int, key: T -> Rank)
    requires multiset(a) == multiset(b)
    requires KeyInjective(a, key)
    ensures TakeTop(a, k, key) == TakeTop(b, k, key)
  {
    var sa, sb := SortBy(a, key), SortBy(b, key);
    KeyInjectivePermutation(a, sa, key);
    SortedUnique(sa, sb, key);
  }

  /** Sorting one element leaves it alone. */
  lemma SortOne<T>(x: T, key: T -> Rank)
    ensures SortBy([x], key) == [x]
  {
    assert [x][1..] == [];
  }

  /** `s.map(f)` */
  function Map<A, B>(f: A -> B, s: seq<A>): (r: seq<B>)
    ensures |r| == |s|
    ensures forall i :: 0 <= i < |s| ==> r[i] == f(s[i])
  {
    seq(|s|, i requires 0 <= i < |s| => f(s[i]))
  }

  /** A rearrangement of `s.map(f)` holds one `f(x)` per element `x` of
      `s`, and nothing else. */
  lemma MapMembers<A, B>(f: A -> B, s: seq<A>, r: seq<B>)
    requires multiset(r) == multiset(Map(f, s))
    ensures |r| == |s|
    ensures forall x :: x in s ==> f(x) in r
    ensures forall y :: y in r ==> exists x :: x in s && y == f(x)
  {
    var m := Map(f, s);
    assert |r| == |multiset(r)| == |m|;
    forall x | x in s ensures f(x) in r {
      var i :| 0 <= i < |s| && s[i] == x;
      assert m[i] in multiset(r);
    }
    forall y | y in r ensures exists x :: x in s && y == f(x) {
      assert y in multiset(m);
      var i :| 0 <= i < |m| && m[i] == y;
      assert s[i] in s;
    }
  }

  /** Sorting commutes with a map that keeps every key. */
  lemma {:induction false} InsertMap<A, B>(h: A -> B, x: A, s: seq<A>, ka: A -> Rank, kb: B -> Rank)
    requires forall y :: kb(h(y)) == ka(y)
    requires SortedBy(s, ka) && SortedBy(Map(h, s), kb)
    ensures Map(h, Insert(x, s, ka)) == Insert(h(x), Map(h, s), kb)
    decreases |s|
  {
    var ms := Map(h, s);
    assert s != [] ==> kb(h(x)) == ka(x) && kb(ms[0]) == ka(s[0]);
    if s != [] && !RankLe(ka(x), ka(s[0])) {
      SortedTail(s, ka);
      assert ms[1..] == Map(h, s[1..]);
      SortedTail(ms, kb);
      InsertMap(h, x, s[1..], ka, kb);
      InsertMapStep(h, x, s, ka, kb);
    } else {
      MapAppend(h, [x], s);
    }
  }

  /** The step of `InsertMap` where `x` goes past the head of `s`. */
  lemma InsertMapStep<A, B>(h: A -> B, x: A, s: seq<A>, ka: A -> Rank, kb: B -> Rank)
    requires s != [] && SortedBy(s, ka) && SortedBy(Map(h, s), kb)
    requires !RankLe(ka(x), ka(s[0])) && !RankLe(kb(h(x)), kb(h(s[0])))
    requires SortedBy(s[1..], ka) && SortedBy(Map(h, s[1..]), kb)
    requires Map(h, Insert(x, s[1..], ka)) == Insert(h(x), Map(h, s[1..]), kb)
    ensures Map(h, Insert(x, s, ka)) == Insert(h(x), Map(h, s), kb)
  {
    var ms := Map(h, s);
    assert ms[1..] == Map(h, s[1..]);
    var rest := Insert(x, s[1..], ka);
    MapAppend(h, [s[0]], rest);
    assert Map(h, [s[0]]) == [ms[0]];
  }

  lemma {:induction false} SortByMap<A, B>(h: A -> B, s: seq<A>, ka: A -> Rank, kb: B -> Rank)
    requires forall y :: kb(h(y)) == ka(y)
    ensures Map(h, SortBy(s, ka)) == SortBy(Map(h, s), kb)
    decreases |s|
  {
    if s != [] {
      SortByMap(h, s[1..], ka, kb);
      assert Map(h, s)[1..] == Map(h, s[1..]);
      InsertMap(h, s[0], SortBy(s[1..], ka), ka, kb);
    }
  }

  lemma MapAppend<A, B>(f: A -> B, a: seq<A>, b: seq<A>)
    ensures Map(f, a + b) == Map(f, a) + Map(f, b)
  {
  }

  /** Mapping rearranged inputs gives the same outputs, rearranged. */
  lemma {:induction false} MapPermutation<A, B>(f: A -> B, a: seq<A>, b: seq<A>)
    requires multiset(a) == multiset(b)
    ensures multiset(Map(f, a)) == multiset(Map(f, b))
    decreases |a|
  {
    assert |b| == |multiset(b)| == |a|;
    if a != [] {
      assert a[0] in multiset(b);
      var j :| 0 <= j < |b| && b[j] == a[0];
      var rest := b[..j] + b[j + 1..];
      assert b == b[..j] + [a[0]] + b[j + 1..];
      assert a == [a[0]] + a[1..];
      assert multiset(a[1..]) == multiset(rest) by {
        assert multiset(a[1..]) == multiset(a) - multiset{a[0]};
        assert multiset(rest) == multiset(b) - multiset{a[0]};
      }
      MapPermutation(f, a[1..], rest);
      MapAppend(f, [a[0]], a[1..]);
      MapAppend(f, b[..j], [a[0]]);
      MapAppend(f, b[..j] + [a[0]], b[j + 1..]);
      MapAppend(f, b[..j], b[j + 1..]);
    }
  }
}
