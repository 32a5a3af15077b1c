/** `map.has(k)` / `map.get(k)` on a JavaScript `Map` kept as a sequence of entries
    in insertion order: the index of the first entry with a given key. */
module Lookup {
  import opened Wrappers

  function IndexBy<T, K(==)>(s: seq<T>, key: T -> K, k: K): (r: Option<nat>)
    ensures r.Some? ==> r.value < |s| && key(s[r.value]) == k
    ensures r.Some? ==> forall j :: 0 <= j < r.value ==> key(s[j]) != k
    ensures r.None? ==> forall j :: 0 <= j < |s| ==> key(s[j]) != k
  {
    if s == [] then None
    else if key(s[0]) == k then Some(0)
    else match IndexBy(s[1..], key, k)
      case None => None
      case Some(i) => Some(i + 1)
  }

  /** An entry set last is found only when no earlier entry has its key. */
  lemma {:induction false} IndexAppend<T, K>(s: seq<T>, x: T, key: T -> K, k: K)
    ensures IndexBy(s + [x], key, k) ==
      match IndexBy(s, key, k) {
        case None => if key(x) == k then Some(|s|) else None
        case Some(j) => Some(j)
      }
  {
    if s != [] {
      assert (s + [x])[1..] == s[1..] + [x];
      IndexAppend(s[1..], x, key, k);
    }
  }

  /** Replacing an entry by one with the same key moves nothing. */
  lemma {:induction false} IndexUpdate<T, K>(s: seq<T>, i: nat, x: T, key: T -> K, k: K)
    requires i < |s| && key(x) == key(s[i])
    ensures IndexBy(s[i := x], key, k) == IndexBy(s, key, k)
  {
    if i > 0 {
      assert s[i := x][1..] == s[1..][i - 1 := x];
      IndexUpdate(s[1..], i - 1, x, key, k);
    }
  }

  /** No two entries share a key, as in a `Map` or a plain object. */
  predicate UniqueBy<T, K(==)>(s: seq<T>, key: T -> K) {
    forall i, j :: 0 <= i < j < |s| ==> key(s[i]) != key(s[j])
  }

  /** An entry set last under a key not yet present keeps the keys unique. */
  lemma AppendUnique<T, K>(s: seq<T>, x: T, key: T -> K)
    requires UniqueBy(s, key) && IndexBy(s, key, key(x)).None?
    ensures UniqueBy(s + [x], key)
  {
    var r := s + [x];
    forall i, j | 0 <= i < j < |r| ensures key(r[i]) != key(r[j]) {
      if j == |s| {
        assert r[i] == s[i] && r[j] == x;
      } else {
        assert r[i] == s[i] && r[j] == s[j];
      }
    }
  }

  /** Replacing an entry by one with the same key keeps the keys unique. */
  lemma UpdateUnique<T, K>(s: seq<T>, i: nat, x: T, key: T -> K)
    requires UniqueBy(s, key) && i < |s| && key(x) == key(s[i])
    ensures UniqueBy(s[i := x], key)
  {
    var r := s[i := x];
    forall a, b | 0 <= a < b < |r| ensures key(r[a]) != key(r[b]) {
      assert key(r[a]) == key(s[a]) && key(r[b]) == key(s[b]);
    }
  }

  /** With unique keys, no element occurs twice. */
  lemma {:induction false} CountUnique<T, K>(s: seq<T>, key: T -> K, x: T)
    requires UniqueBy(s, key)
    ensures multiset(s)[x] <= 1
    decreases |s|
  {
    if s != [] {
      var tail := s[1..];
      assert UniqueBy(tail, key) by {
        forall i, j | 0 <= i < j < |tail| ensures key(tail[i]) != key(tail[j]) {
          assert tail[i] == s[i + 1] && tail[j] == s[j + 1];
        }
      }
      CountUnique(tail, key, x);
      assert s == [s[0]] + tail;
      if s[0] == x {
        assert x !in tail by {
          forall j | 0 <= j < |tail| ensures tail[j] != x {
            assert tail[j] == s[j + 1];
          }
        }
      }
    }
  }

  /** An element at two positions occurs twice. */
  lemma TwiceCounted<T>(r: seq<T>, i: nat, j: nat)
    requires i < j < |r| && r[i] == r[j]
    ensures multiset(r)[r[i]] >= 2
  {
    assert r == r[..j] + r[j..];
    assert r[i] == r[..j][i];
    assert r[j] == r[j..][0];
  }

  /** Reordering keeps the keys unique. */
  lemma PermutationUnique<T, K>(s: seq<T>, r: seq<T>, key: T -> K)
    requires multiset(r) == multiset(s) && UniqueBy(s, key)
    ensures UniqueBy(r, key)
  {
    forall i, j | 0 <= i < j < |r| ensures key(r[i]) != key(r[j]) {
      if key(r[i]) == key(r[j]) {
        assert r[i] in multiset(s) && r[j] in multiset(s);
        var a :| 0 <= a < |s| && s[a] == r[i];
        var b :| 0 <= b < |s| && s[b] == r[j];
        if a == b {
          TwiceCounted(r, i, j);
          CountUnique(s, key, r[i]);
          assert false;
        } else {
          assert false;
        }
      }
    }
  }
}
