/**
 * Sorting key/value pairs by key, with the ordinal string order standing in for the
 * culture-sensitive comparer that LINQ's `OrderBy(p => p.Key)` uses. `OrderBy` is stable,
 * and so is this insertion sort (`SortByKeyStable`).
 */
module KeySort {
  import opened Text

  function Keys<V>(s: seq<(string, V)>): (ks: seq<string>)
    ensures |ks| == |s| && forall i :: 0 <= i < |s| ==> ks[i] == s[i].0
  {
    if s == [] then [] else [s[0].0] + Keys(s[1..])
  }

  predicate UniqueKeys<V>(s: seq<(string, V)>) {
    forall i, j :: 0 <= i < j < |s| ==> s[i].0 != s[j].0
  }

  predicate SortedByKey<V>(s: seq<(string, V)>) {
    forall i, j :: 0 <= i < j < |s| ==> LessEq(s[i].0, s[j].0)
  }

  /** Keys ascending without repetition. */
  predicate StrictlySortedByKey<V>(s: seq<(string, V)>) {
    SortedByKey(s) && UniqueKeys(s)
  }

  function Insert<V>(x: (string, V), s: seq<(string, V)>): (r: seq<(string, V)>)
    requires SortedByKey(s)
    ensures SortedByKey(r)
    ensures multiset(r) == multiset(s) + multiset{x}
    ensures |r| == |s| + 1
    ensures forall k :: k in Keys(r) <==> k == x.0 || k in Keys(s)
  {
    if s == [] then [x]
    else if LessEq(x.0, s[0].0) then
      forall j | 0 < j < |s| ensures LessEq(x.0, s[j].0) {
        LessEqTransitive(x.0, s[0].0, s[j].0);
      }
      [x] + s
    else
      LessEqTotal(x.0, s[0].0);
      var rest := Insert(x, s[1..]);
      assert s == [s[0]] + s[1..];
      assert forall j :: 0 <= j < |rest| ==> LessEq(s[0].0, rest[j].0) by {
        forall j | 0 <= j < |rest| ensures LessEq(s[0].0, rest[j].0) {
          assert rest[j] in multiset(rest);
          assert rest[j] == x || rest[j] in multiset(s[1..]);
          if rest[j] != x {
            var m :| 0 <= m < |s[1..]| && s[1..][m] == rest[j];
            assert s[m + 1] == rest[j];
          }
        }
      }
      [s[0]] + rest
  }

  /** `OrderBy(p => p.Key)`: the same pairs, keys ascending, equal keys in input order. */
  function SortByKey<V>(s: seq<(string, V)>): (r: seq<(string, V)>)
    ensures SortedByKey(r)
    ensures multiset(r) == multiset(s)
    ensures |r| == |s|
    ensures forall k :: k in Keys(r) <==> k in Keys(s)
  {
    if s == [] then []
    else
      assert s == [s[0]] + s[1..];
      Insert(s[0], SortByKey(s[1..]))
  }

  /** Sorting keeps exactly the pairs of the input. */
  lemma SortByKeySamePairs<V>(s: seq<(string, V)>, p: (string, V))
    ensures p in SortByKey(s) <==> p in s
  {
    assert p in SortByKey(s) <==> p in multiset(SortByKey(s));
    assert p in s <==> p in multiset(s);
  }

  /** Keys that were unique stay unique. */
  lemma {:induction false} SortByKeyUnique<V>(s: seq<(string, V)>)
    requires UniqueKeys(s)
    ensures UniqueKeys(SortByKey(s))
  {
    if s != [] {
      SortByKeyUnique(s[1..]);
      InsertUnique(s[0], SortByKey(s[1..]));
    }
  }

  lemma {:induction false} InsertUnique<V>(x: (string, V), s: seq<(string, V)>)
    requires SortedByKey(s) && UniqueKeys(s) && x.0 !in Keys(s)
    ensures UniqueKeys(Insert(x, s))
  {
    if s != [] && !LessEq(x.0, s[0].0) {
      assert Keys(s[1..]) == Keys(s)[1..];
      InsertUnique(x, s[1..]);
      var rest := Insert(x, s[1..]);
      assert s[0].0 !in Keys(rest) by {
        assert s[0].0 != x.0;
        assert s[0].0 !in Keys(s)[1..];
      }
    }
  }

  /** The pairs of `s` whose key is `k`, in the order of `s`. */
  function WithKey<V>(s: seq<(string, V)>, k: string): seq<(string, V)>
  {
    if s == [] then [] else (if s[0].0 == k then [s[0]] else []) + WithKey(s[1..], k)
  }

  lemma WithKeyCons<V>(y: (string, V), t: seq<(string, V)>, k: string)
    ensures WithKey([y] + t, k) == (if y.0 == k then [y] else []) + WithKey(t, k)
  {
    assert ([y] + t)[1..] == t;
  }

  /** An inserted pair goes before every pair with the same key. */
  lemma {:induction false} InsertWithKey<V>(x: (string, V), s: seq<(string, V)>, k: string)
    requires SortedByKey(s)
    ensures WithKey(Insert(x, s), k) == (if x.0 == k then [x] else []) + WithKey(s, k)
  {
    if s == [] {
      WithKeyCons(x, [], k);
    } else if LessEq(x.0, s[0].0) {
      assert Insert(x, s) == [x] + s;
      WithKeyCons(x, s, k);
    } else {
      var y, t := s[0], s[1..];
      assert [y] + t == s;
      LessEqReflexive(x.0);
      assert x.0 != y.0;
      var rest := Insert(x, t);
      assert Insert(x, s) == [y] + rest;
      InsertWithKey(x, t, k);
      WithKeyPast(x, y, t, rest, k);
    }
  }

  /** A pair `y` with another key than `x` may pass `x` without changing either key's order. */
  lemma WithKeyPast<V>(x: (string, V), y: (string, V), t: seq<(string, V)>, rest: seq<(string, V)>, k: string)
    requires x.0 != y.0
    requires WithKey(rest, k) == (if x.0 == k then [x] else []) + WithKey(t, k)
    ensures WithKey([y] + rest, k) == (if x.0 == k then [x] else []) + WithKey([y] + t, k)
  {
    WithKeyCons(y, rest, k);
    WithKeyCons(y, t, k);
  }

  /** The sort is stable: for every key, the pairs with that key keep their input order. */
  lemma {:induction false} SortByKeyStable<V>(s: seq<(string, V)>, k: string)
    ensures WithKey(SortByKey(s), k) == WithKey(s, k)
  {
    if s != [] {
      SortByKeyStable(s[1..], k);
      InsertWithKey(s[0], SortByKey(s[1..]), k);
    }
  }

  /** An input already in key order is left as it is. */
  lemma {:induction false} SortByKeyOfSorted<V>(s: seq<(string, V)>)
    requires SortedByKey(s)
    ensures SortByKey(s) == s
  {
    if s != [] {
      SortByKeyOfSorted(s[1..]);
      if |s| > 1 { assert LessEq(s[0].0, s[1..][0].0); }
      assert [s[0]] + s[1..] == s;
    }
  }

  /** Sorting twice is sorting once. */
  lemma SortByKeyIdempotent<V>(s: seq<(string, V)>)
    ensures SortByKey(SortByKey(s)) == SortByKey(s)
  {
    SortByKeyOfSorted(SortByKey(s));
  }

  /** Applies `f` to every value, keeping keys and order. */
  function MapValues<V, W>(f: V -> W, s: seq<(string, V)>): (r: seq<(string, W)>)
    ensures |r| == |s| && forall i :: 0 <= i < |s| ==> r[i] == (s[i].0, f(s[i].1))
  {
    if s == [] then [] else [(s[0].0, f(s[0].1))] + MapValues(f, s[1..])
  }

  lemma {:induction false} InsertMapValues<V, W>(f: V -> W, x: (string, V), s: seq<(string, V)>)
    requires SortedByKey(s)
    ensures SortedByKey(MapValues(f, s))
    ensures Insert((x.0, f(x.1)), MapValues(f, s)) == MapValues(f, Insert(x, s))
  {
    assert SortedByKey(MapValues(f, s));
    if s != [] && !LessEq(x.0, s[0].0) {
      InsertMapValues(f, x, s[1..]);
      assert MapValues(f, s)[1..] == MapValues(f, s[1..]);
      assert MapValues(f, Insert(x, s)) == [(s[0].0, f(s[0].1))] + MapValues(f, Insert(x, s[1..]));
    } else if s != [] {
      assert MapValues(f, Insert(x, s)) == [(x.0, f(x.1))] + MapValues(f, s);
    }
  }

  /** Sorting looks only at keys, so it commutes with changing the values. */
  lemma {:induction false} SortByKeyMapValues<V, W>(f: V -> W, s: seq<(string, V)>)
    ensures SortByKey(MapValues(f, s)) == MapValues(f, SortByKey(s))
  {
    if s != [] {
      SortByKeyMapValues(f, s[1..]);
      assert MapValues(f, s)[1..] == MapValues(f, s[1..]);
      InsertMapValues(f, s[0], SortByKey(s[1..]));
    }
  }
}
