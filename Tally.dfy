/** A JavaScript `Map<string, number>` used as a counter: entries in insertion
    order, `m.set(k, (m.get(k) || 0) + n)` as `Add`, and the ranking
    `[...m.entries()].sort((a, b) => b[1] - a[1]).slice(0, n)` as `Top`. */
module Tally {
  import opened Sorting

  datatype Entry = Entry(key: string, count: nat)

  /** Entries in the order their keys were first set. */
  type Tally = seq<Entry>

  predicate Distinct(t: Tally) {
    forall i, j :: 0 <= i < j < |t| ==> t[i].key != t[j].key
  }

  predicate HasKey(t: Tally, k: string) {
    exists i :: 0 <= i < |t| && t[i].key == k
  }

  function Keys(t: Tally): (r: seq<string>)
    ensures |r| == |t| && forall i :: 0 <= i < |t| ==> r[i] == t[i].key
  {
    if t == [] then [] else [t[0].key] + Keys(t[1..])
  }

  /** `m.get(k) || 0`. */
  function Get(t: Tally, k: string): nat {
    if t == [] then 0 else if t[0].key == k then t[0].count else Get(t[1..], k)
  }

  function Sum(t: Tally): nat {
    if t == [] then 0 else t[0].count + Sum(t[1..])
  }

  /** `m.set(k, (m.get(k) || 0) + n)`: an existing key keeps its place, a new one goes last. */
  function Add(t: Tally, k: string, n: nat): (r: Tally)
    ensures HasKey(t, k) ==> |r| == |t| && forall i :: 0 <= i < |t| ==> r[i].key == t[i].key
    ensures !HasKey(t, k) ==> r == t + [Entry(k, n)]
  {
    if t == [] then [Entry(k, n)]
    else if t[0].key == k then [Entry(k, t[0].count + n)] + t[1..]
    else [t[0]] + Add(t[1..], k, n)
  }

  function Inc(t: Tally, k: string): Tally {
    Add(t, k, 1)
  }

  lemma {:induction false} AddGet(t: Tally, k: string, n: nat, k': string)
    ensures Get(Add(t, k, n), k') == Get(t, k') + (if k == k' then n else 0)
  {
    if t != [] && t[0].key != k {
      AddGet(t[1..], k, n, k');
    }
  }

  lemma {:induction false} AddSum(t: Tally, k: string, n: nat)
    requires Distinct(t)
    ensures Sum(Add(t, k, n)) == Sum(t) + n
  {
    if t == [] {
    } else if t[0].key == k {
      assert Add(t, k, n)[1..] == t[1..];
    } else {
      AddSum(t[1..], k, n);
      assert Add(t, k, n)[1..] == Add(t[1..], k, n);
    }
  }

  lemma {:induction false} AddDistinct(t: Tally, k: string, n: nat)
    requires Distinct(t)
    ensures Distinct(Add(t, k, n))
  {
    var r := Add(t, k, n);
    if !HasKey(t, k) {
      assert r == t + [Entry(k, n)];
    }
  }

  lemma AddHasKey(t: Tally, k: string, n: nat, k': string)
    ensures HasKey(Add(t, k, n), k') <==> HasKey(t, k') || k == k'
  {
    var r := Add(t, k, n);
    if HasKey(t, k) {
      var i :| 0 <= i < |t| && t[i].key == k;
      assert r[i].key == k;
    } else {
      assert r[|t|].key == k;
    }
    if HasKey(t, k') {
      var i :| 0 <= i < |t| && t[i].key == k';
      assert r[i].key == k';
    }
  }

  /** Every key that is present has been counted at least once. */
  lemma {:induction false} GetPositive(t: Tally, k: string)
    requires forall i :: 0 <= i < |t| ==> t[i].count > 0
    ensures HasKey(t, k) <==> Get(t, k) > 0
  {
    if t != [] && t[0].key != k {
      GetPositive(t[1..], k);
      if HasKey(t, k) {
        var i :| 0 <= i < |t| && t[i].key == k;
        assert t[1..][i - 1].key == k;
      }
      if HasKey(t[1..], k) {
        var i :| 0 <= i < |t| - 1 && t[1..][i].key == k;
        assert t[i + 1].key == k;
      }
    }
  }

  function CountOf(e: Entry): int {
    e.count
  }

  /** `[...m.entries()].sort((a, b) => b[1] - a[1])`: a stable sort on descending
      count, holding the same entries and never rising in count. */
  function Rank(t: Tally): (r: Tally)
    ensures multiset(r) == multiset(t) && |r| == |t|
    ensures forall i, j :: 0 <= i < j < |r| ==> r[i].count >= r[j].count
  {
    IntOrdersArePreorders();
    SortBySorted(t, CountOf, AtLeast);
    SortBy(t, CountOf, AtLeast)
  }

  /** `.slice(0, n)` of the ranking: `min(|t|, n)` entries of the counter, never
      rising in count. */
  function Top(t: Tally, n: nat): (r: Tally)
    ensures |r| == if |t| < n then |t| else n
    ensures forall i :: 0 <= i < |r| ==> r[i] in multiset(t)
    ensures forall i, j :: 0 <= i < j < |r| ==> r[i].count >= r[j].count
  {
    var ranked := Rank(t);
    if |ranked| < n then ranked else ranked[..n]
  }

  /** Every key the top list names is a key of the counter. */
  lemma TopKeysPresent(t: Tally, n: nat)
    ensures forall i :: 0 <= i < |Keys(Top(t, n))| ==> HasKey(t, Keys(Top(t, n))[i])
  {
    var r := Top(t, n);
    forall i | 0 <= i < |r| ensures HasKey(t, Keys(r)[i]) {
      assert r[i] in multiset(t);
      var j :| 0 <= j < |t| && t[j] == r[i];
      assert t[j].key == Keys(r)[i];
    }
  }

  /** Adding a positive amount keeps every count positive. */
  lemma {:induction false} AddPositive(t: Tally, k: string, n: nat)
    requires n > 0 && forall i :: 0 <= i < |t| ==> t[i].count > 0
    ensures forall i :: 0 <= i < |Add(t, k, n)| ==> Add(t, k, n)[i].count > 0
  {
    if t != [] && t[0].key != k {
      AddPositive(t[1..], k, n);
      assert Add(t, k, n) == [t[0]] + Add(t[1..], k, n);
    }
  }

  /** Ties keep first-seen order: the entries with any one count appear in the ranking
      in the order they have in the counter. */
  lemma RankKeepsTieOrder(t: Tally, c: int)
    ensures Having(Rank(t), CountOf, c) == Having(t, CountOf, c)
  {
    IntOrdersArePreorders();
    SortByStable(t, CountOf, AtLeast, c);
  }

  lemma SpliceDistinct(s: Tally, p: nat, x: Entry)
    requires p <= |s| && Distinct(s)
    requires forall i :: 0 <= i < |s| ==> s[i].key != x.key
    ensures Distinct(s[..p] + [x] + s[p..])
  {
    var r := s[..p] + [x] + s[p..];
    forall i, j | 0 <= i < j < |r| ensures r[i].key != r[j].key {
      if i < p && j > p {
        assert r[i] == s[i] && r[j] == s[j - 1];
      } else if i > p {
        assert r[i] == s[i - 1] && r[j] == s[j - 1];
      }
    }
  }

  lemma FreshKeyAfterSort(t: Tally, rest: Tally)
    requires t != [] && Distinct(t) && multiset(rest) == multiset(t[1..])
    ensures forall i :: 0 <= i < |rest| ==> rest[i].key != t[0].key
  {
    forall i | 0 <= i < |rest| ensures rest[i].key != t[0].key {
      assert rest[i] in multiset(t[1..]);
      var m :| 0 <= m < |t| - 1 && t[1..][m] == rest[i];
      assert t[m + 1] == rest[i];
    }
  }

  lemma {:induction false} SortByDistinct(t: Tally)
    requires Distinct(t)
    ensures Distinct(SortBy(t, CountOf, AtLeast))
  {
    if t != [] {
      var rest := SortBy(t[1..], CountOf, AtLeast);
      SortByDistinct(t[1..]);
      var p := InsertIsSplice(t[0], rest, CountOf, AtLeast);
      FreshKeyAfterSort(t, rest);
      SpliceDistinct(rest, p, t[0]);
    }
  }

  /** The ranking lists every key of the counter exactly once. */
  lemma RankListsEachKeyOnce(t: Tally)
    requires Distinct(t)
    ensures Distinct(Rank(t))
    ensures forall k :: HasKey(Rank(t), k) <==> HasKey(t, k)
  {
    SortByDistinct(t);
    var r := Rank(t);
    forall k ensures HasKey(r, k) <==> HasKey(t, k) {
      if HasKey(r, k) {
        var i :| 0 <= i < |r| && r[i].key == k;
        assert r[i] in multiset(t);
        var m :| 0 <= m < |t| && t[m] == r[i];
      }
      if HasKey(t, k) {
        var i :| 0 <= i < |t| && t[i].key == k;
        assert t[i] in multiset(r);
        var m :| 0 <= m < |r| && r[m] == t[i];
      }
    }
  }

  /** Top-n selection: at most n entries, none of them outnumbered by an entry left out. */
  lemma TopSelectsLargest(t: Tally, n: nat)
    ensures |Top(t, n)| <= n
    ensures forall i :: 0 <= i < |Top(t, n)| ==> Top(t, n)[i] in t
    ensures forall x, y :: x in Top(t, n) && y in t && y !in Top(t, n) ==> x.count >= y.count
  {
    var r := Rank(t);
    forall x, y | x in Top(t, n) && y in t && y !in Top(t, n) ensures x.count >= y.count {
      var i :| 0 <= i < |Top(t, n)| && Top(t, n)[i] == x;
      assert y in multiset(r);
      var j :| 0 <= j < |r| && r[j] == y;
      assert j >= n;
      assert r[i] == x;
    }
  }

  /** With each key once, an entry's count is what `get` returns for its key. */
  lemma {:induction false} GetDistinct(t: Tally, i: nat)
    requires Distinct(t) && i < |t|
    ensures Get(t, t[i].key) == t[i].count
  {
    if i > 0 {
      GetDistinct(t[1..], i - 1);
    }
  }

  /** With each key once, every count the top list prints is what `get` returns for its key. */
  lemma TopCountsAreGets(t: Tally, n: nat)
    requires Distinct(t)
    ensures forall i :: 0 <= i < |Top(t, n)| ==> Top(t, n)[i].count == Get(t, Top(t, n)[i].key)
  {
    TopSelectsLargest(t, n);
    forall i | 0 <= i < |Top(t, n)| ensures Top(t, n)[i].count == Get(t, Top(t, n)[i].key) {
      var k :| 0 <= k < |t| && t[k] == Top(t, n)[i];
      GetDistinct(t, k);
    }
  }
}
