/**
 * `JsonUtil.Sort`: the properties of an object are put in ascending name order (a stable
 * sort, names compared ordinally), and every object-valued property is sorted the same way.
 * Arrays are left as they are, objects inside them included.
 */
module JsonSort {
  import opened KeySort
  import opened JsonDecode

  /** The value `Sort` leaves behind; anything but an object is left as it is. */
  function SortValue(j: Json): Json
    decreases j
  {
    match j
    case JObject(ps) =>
      JObject(SortByKey(seq(|ps|, i requires 0 <= i < |ps| => (ps[i].0, SortValue(ps[i].1)))))
    case _ => j
  }

  /** The sorted object is its properties, each value sorted, put in name order. */
  lemma SortValueMapped(j: Json)
    requires j.JObject?
    ensures SortValue(j) == JObject(SortByKey(MapValues(SortValue, j.props)))
    ensures SortValue(j) == JObject(MapValues(SortValue, SortByKey(j.props)))
  {
    var ps := j.props;
    assert seq(|ps|, i requires 0 <= i < |ps| => (ps[i].0, SortValue(ps[i].1))) == MapValues(SortValue, ps);
    SortByKeyMapValues(SortValue, ps);
  }

  /**
   * `Sort` on an object as the source runs it: the properties are taken out, put back in
   * name order, and each one whose value is an object is sorted in turn.
   */
  method Sort(j: Json) returns (r: Json)
    requires j.JObject?
    ensures r == SortValue(j)
    decreases j
  {
    var sorted := SortByKey(j.props);
    var out: seq<(string, Json)> := [];
    for i := 0 to |sorted|
      invariant out == MapValues(SortValue, sorted[..i])
    {
      var (name, v) := sorted[i];
      SortedChild(j, sorted[i]);
      var w := v;
      if v.JObject? {
        w := Sort(v);
      }
      MapValuesSnoc(SortValue, sorted, i);
      out := out + [(name, w)];
    }
    assert sorted[..|sorted|] == sorted;
    SortValueMapped(j);
    r := JObject(out);
  }

  /** A property of the name-ordered object is a property of the object, so smaller than it. */
  lemma SortedChild(j: Json, p: (string, Json))
    requires j.JObject? && p in SortByKey(j.props)
    ensures p.1 < j
  {
    SortByKeySamePairs(j.props, p);
    var m :| 0 <= m < |j.props| && j.props[m] == p;
    assert p.1 == j.props[m].1;
  }

  lemma MapValuesSnoc<V, W>(f: V -> W, s: seq<(string, V)>, i: nat)
    requires i < |s|
    ensures MapValues(f, s[..i + 1]) == MapValues(f, s[..i]) + [(s[i].0, f(s[i].1))]
  {
  }

  /**
   * A sorted object has its names in ascending order, as many properties as before, and for
   * each property of the original, the same name with its value sorted; nothing else.
   */
  lemma SortKeepsProperties(j: Json)
    requires j.JObject?
    ensures var r := SortValue(j);
      && r.JObject? && SortedByKey(r.props) && |r.props| == |j.props|
      && (forall i :: 0 <= i < |j.props| ==> (j.props[i].0, SortValue(j.props[i].1)) in r.props)
      && (forall p :: p in r.props ==> exists i :: 0 <= i < |j.props| && p == (j.props[i].0, SortValue(j.props[i].1)))
  {
    SortValueMapped(j);
    SortHasOriginals(j);
    SortHasNothingElse(j);
  }

  lemma SortHasOriginals(j: Json)
    requires j.JObject?
    ensures forall i :: 0 <= i < |j.props| ==> (j.props[i].0, SortValue(j.props[i].1)) in SortValue(j).props
  {
    var ps := j.props;
    var m := MapValues(SortValue, ps);
    SortValueMapped(j);
    forall i | 0 <= i < |ps| ensures (ps[i].0, SortValue(ps[i].1)) in SortValue(j).props {
      assert m[i] == (ps[i].0, SortValue(ps[i].1));
      SortByKeySamePairs(m, m[i]);
    }
  }

  lemma SortHasNothingElse(j: Json)
    requires j.JObject?
    ensures forall p :: p in SortValue(j).props ==>
      exists i :: 0 <= i < |j.props| && p == (j.props[i].0, SortValue(j.props[i].1))
  {
    var r := SortValue(j);
    forall p | p in r.props ensures exists i :: 0 <= i < |j.props| && p == (j.props[i].0, SortValue(j.props[i].1)) {
      var k :| 0 <= k < |r.props| && r.props[k] == p;
      var i := SortedOrigin(j, k);
    }
  }

  /** A property whose value is an array (or a primitive) keeps that value exactly. */
  lemma SortLeavesArrays(j: Json, name: string, v: Json)
    requires j.JObject? && (name, v) in j.props && !v.JObject?
    ensures (name, v) in SortValue(j).props
  {
    SortKeepsProperties(j);
    var i :| 0 <= i < |j.props| && j.props[i] == (name, v);
    assert (j.props[i].0, SortValue(j.props[i].1)) == (name, v);
  }

  /** Sorting a sorted value changes nothing. */
  lemma {:induction false} SortIdempotent(j: Json)
    ensures SortValue(SortValue(j)) == SortValue(j)
    decreases j
  {
    if j.JObject? {
      var r := SortValue(j);
      forall k | 0 <= k < |r.props| ensures SortValue(r.props[k].1) == r.props[k].1 {
        var i := SortedOrigin(j, k);
        SortIdempotent(j.props[i].1);
      }
      SortFixedPoint(r);
    }
  }

  /** The `k`-th property of a sorted object comes from some property of the original. */
  lemma SortedOrigin(j: Json, k: nat) returns (i: nat)
    requires j.JObject? && k < |SortValue(j).props|
    ensures i < |j.props| && SortValue(j).props[k] == (j.props[i].0, SortValue(j.props[i].1))
  {
    var m := MapValues(SortValue, j.props);
    SortValueMapped(j);
    SortByKeySamePairs(m, SortValue(j).props[k]);
    i :| 0 <= i < |m| && m[i] == SortValue(j).props[k];
  }

  /** An object in name order whose values are all sorted is sorted already. */
  lemma SortFixedPoint(r: Json)
    requires r.JObject? && SortedByKey(r.props)
    requires forall k :: 0 <= k < |r.props| ==> SortValue(r.props[k].1) == r.props[k].1
    ensures SortValue(r) == r
  {
    SortValueMapped(r);
    assert MapValues(SortValue, r.props) == r.props;
    SortByKeyOfSorted(r.props);
  }

  /** Sorting keeps a value strict: names stay distinct in every object. */
  lemma {:induction false} SortKeepsStrict(j: Json)
    requires Strict(j)
    ensures Strict(SortValue(j))
    decreases j
  {
    if j.JObject? {
      var ps := j.props;
      var m := MapValues(SortValue, ps);
      SortValueMapped(j);
      assert Keys(m) == Keys(ps);
      SortByKeyUnique(m);
      var r := SortValue(j);
      forall k | 0 <= k < |r.props| ensures Strict(r.props[k].1) {
        var i := SortedOrigin(j, k);
        SortKeepsStrict(ps[i].1);
      }
    }
  }
}
