/** The stable sort behind JavaScript's `Array.prototype.sort` (stable since
    ECMAScript 2019), as an insertion sort over a key and an ordering on keys. */
module Sorting {

  /** `le` is total and transitive: a comparator that never answers inconsistently. */
  ghost predicate TotalPreorder<K(!new)>(le: (K, K) -> bool) {
    (forall a, b :: le(a, b) || le(b, a)) &&
    (forall a, b, c :: le(a, b) && le(b, c) ==> le(a, c))
  }

  predicate SortedBy<T, K(!new)>(s: seq<T>, key: T -> K, le: (K, K) -> bool) {
    forall i, j :: 0 <= i < j < |s| ==> le(key(s[i]), key(s[j]))
  }

  /** The elements of `s` whose key is `k`, in their order in `s`. */
  function Having<T, K(==,!new)>(s: seq<T>, key: T -> K, k: K): (r: seq<T>)
    ensures |r| <= |s|
    ensures forall x :: x in r ==> x in s && key(x) == k
  {
    if s == [] then [] else (if key(s[0]) == k then [s[0]] else []) + Having(s[1..], key, k)
  }

  /** Places `x` in front of the first element whose key it does not exceed. */
  function Insert<T, K(!new)>(x: T, s: seq<T>, key: T -> K, le: (K, K) -> bool): (r: seq<T>)
    ensures multiset(r) == multiset(s) + multiset{x}
  {
    if s == [] || le(key(x), key(s[0])) then [x] + s
    else assert s == [s[0]] + s[1..]; [s[0]] + Insert(x, s[1..], key, le)
  }

  /** `s.sort(cmp)` where `cmp(a, b) <= 0` exactly when `le(key(a), key(b))`. */
  function SortBy<T, K(!new)>(s: seq<T>, key: T -> K, le: (K, K) -> bool): (r: seq<T>)
    ensures multiset(r) == multiset(s) && |r| == |s|
  {
    if s == [] then []
    else assert s == [s[0]] + s[1..]; Insert(s[0], SortBy(s[1..], key, le), key, le)
  }

  /** `Insert` puts `x` at one position and leaves the rest of `s` as it was. */
  lemma {:induction false} InsertIsSplice<T, K(!new)>(x: T, s: seq<T>, key: T -> K, le: (K, K) -> bool) returns (p: nat)
    ensures p <= |s| && Insert(x, s, key, le) == s[..p] + [x] + s[p..]
  {
    if s == [] || le(key(x), key(s[0])) {
      p := 0;
    } else {
      var q := InsertIsSplice(x, s[1..], key, le);
      p := q + 1;
      assert s[1..][..q] == s[1..p];
      assert s[1..][q..] == s[p..];
      assert [s[0]] + s[1..p] == s[..p];
    }
  }

  lemma {:induction false} InsertSorted<T, K(!new)>(x: T, s: seq<T>, key: T -> K, le: (K, K) -> bool)
    requires TotalPreorder(le) && SortedBy(s, key, le)
    ensures SortedBy(Insert(x, s, key, le), key, le)
  {
    if s != [] && !le(key(x), key(s[0])) {
      InsertSorted(x, s[1..], key, le);
      var r := Insert(x, s[1..], key, le);
      assert multiset(r) == multiset(s[1..]) + multiset{x};
      forall j | 0 <= j < |r| ensures le(key(s[0]), key(r[j])) {
        assert r[j] in multiset(r);
        if r[j] == x {
        } else {
          assert r[j] in multiset(s[1..]);
          var m :| 0 <= m < |s[1..]| && s[1..][m] == r[j];
          assert s[m + 1] == r[j];
        }
      }
    }
  }

  /** The result of `SortBy` is ordered by `le`. */
  lemma {:induction false} SortBySorted<T, K(!new)>(s: seq<T>, key: T -> K, le: (K, K) -> bool)
    requires TotalPreorder(le)
    ensures SortedBy(SortBy(s, key, le), key, le)
  {
    if s != [] {
      SortBySorted(s[1..], key, le);
      InsertSorted(s[0], SortBy(s[1..], key, le), key, le);
    }
  }

  lemma {:induction false} InsertHaving<T, K(!new)>(x: T, s: seq<T>, key: T -> K, le: (K, K) -> bool, k: K)
    requires TotalPreorder(le) && SortedBy(s, key, le)
    ensures Having(Insert(x, s, key, le), key, k)
         == (if key(x) == k then [x] else []) + Having(s, key, k)
  {
    if s == [] || le(key(x), key(s[0])) {
      assert Insert(x, s, key, le) == [x] + s;
      assert ([x] + s)[1..] == s;
    } else {
      var r := [s[0]] + Insert(x, s[1..], key, le);
      assert r[1..] == Insert(x, s[1..], key, le);
      assert s[1..] == s[1..];
      InsertHaving(x, s[1..], key, le, k);
      if key(x) == k {
        // s[0] sorts strictly before x, so it cannot share x's key
        assert key(s[0]) != k;
      }
    }
  }

  /** Stability: for every key, the elements carrying it keep their relative order. */
  lemma {:induction false} SortByStable<T, K(!new)>(s: seq<T>, key: T -> K, le: (K, K) -> bool, k: K)
    requires TotalPreorder(le)
    ensures Having(SortBy(s, key, le), key, k) == Having(s, key, k)
  {
    if s != [] {
      SortByStable(s[1..], key, le, k);
      SortBySorted(s[1..], key, le);
      InsertHaving(s[0], SortBy(s[1..], key, le), key, le, k);
    }
  }

  /** JavaScript's default string order (code unit by code unit, a prefix first). */
  predicate LexLe(a: string, b: string) {
    a == [] || (b != [] && (a[0] < b[0] || (a[0] == b[0] && LexLe(a[1..], b[1..]))))
  }

  lemma {:induction false} LexTotal(a: string, b: string)
    ensures LexLe(a, b) || LexLe(b, a)
  {
    if a != [] && b != [] && a[0] == b[0] {
      LexTotal(a[1..], b[1..]);
    }
  }

  lemma {:induction false} LexTransitive(a: string, b: string, c: string)
    requires LexLe(a, b) && LexLe(b, c)
    ensures LexLe(a, c)
  {
    if a != [] && b != [] && c != [] && a[0] == b[0] == c[0] {
      LexTransitive(a[1..], b[1..], c[1..]);
    }
  }

  lemma {:induction false} LexAntisymmetric(a: string, b: string)
    requires LexLe(a, b) && LexLe(b, a)
    ensures a == b
  {
    if a != [] && b != [] {
      LexAntisymmetric(a[1..], b[1..]);
      assert a == [a[0]] + a[1..] && b == [b[0]] + b[1..];
    }
  }

  lemma LexIsTotalPreorder()
    ensures TotalPreorder(LexLe)
  {
    forall a, b ensures LexLe(a, b) || LexLe(b, a) { LexTotal(a, b); }
    forall a, b, c | LexLe(a, b) && LexLe(b, c) ensures LexLe(a, c) { LexTransitive(a, b, c); }
  }

  function AtMost(a: int, b: int): bool { a <= b }
  function AtLeast(a: int, b: int): bool { a >= b }

  lemma IntOrdersArePreorders()
    ensures TotalPreorder(AtMost) && TotalPreorder(AtLeast)
  {
  }
}
