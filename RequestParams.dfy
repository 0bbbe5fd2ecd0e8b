/**
 * The request parameter set `RquestParams`: a dictionary from parameter name to value with
 * unique names, filled through a strict `Add` and a lenient `AddOption`. A value is kept as
 * the text its `ToString()` gives, which is all the rest of the library reads of it, and
 * `None` stands for a `null` value. The dictionary is never removed from, so it enumerates
 * in insertion order; the model keeps it as a sequence in that order.
 */
module RequestParameters {
  import opened Wrappers
  import opened Text
  import opened AppErrors
  import opened KeySort

  type Pairs = seq<(string, string)>

  /** What every reachable parameter set satisfies: names unique, names and values non-empty. */
  predicate WellFormed(items: Pairs) {
    UniqueKeys(items) && forall i :: 0 <= i < |items| ==> items[i].0 != "" && items[i].1 != ""
  }

  /** The value stored under `name`, if any. */
  function Find(items: Pairs, name: string): (r: Option<string>)
    ensures r.Some? <==> name in Keys(items)
    ensures r.Some? ==> (name, r.value) in items
    ensures UniqueKeys(items) ==> forall v :: (name, v) in items ==> r == Some(v)
  {
    if items == [] then None
    else if items[0].0 == name then Some(items[0].1)
    else
      assert Keys(items[1..]) == Keys(items)[1..];
      Find(items[1..], name)
  }

  function ContainsKey(items: Pairs, name: string): bool { Find(items, name).Some? }

  /** `Add`: the three guards in the order the source checks them, then the insertion. */
  function AddTo(items: Pairs, name: Option<string>, value: Option<string>): (r: Result<Pairs, Exception>)
    ensures IsNullOrEmpty(name) ==> r == Failure(Framework(ArgumentNullException("paramName")))
    ensures !IsNullOrEmpty(name) && name.value in Keys(items) ==> r == Failure(Framework(ArgumentException("paramName")))
    ensures !IsNullOrEmpty(name) && name.value !in Keys(items) && IsNullOrEmpty(value) ==>
      r == Failure(Framework(ArgumentNullException("value")))
    ensures r.Success? <==> !IsNullOrEmpty(name) && name.value !in Keys(items) && !IsNullOrEmpty(value)
    ensures r.Success? ==> r.value == items + [(name.value, value.value)]
  {
    if IsNullOrEmpty(name) then Failure(Framework(ArgumentNullException("paramName")))
    else if ContainsKey(items, name.value) then Failure(Framework(ArgumentException("paramName")))
    else if IsNullOrEmpty(value) then Failure(Framework(ArgumentNullException("value")))
    else Result.Success(items + [(name.value, value.value)])
  }

  /** `AddOption` once its name is known to be non-empty: empty values and known names are skipped. */
  function AddOptionTo(items: Pairs, name: string, value: Option<string>): (r: Pairs)
    requires name != ""
    ensures IsNullOrEmpty(value) || name in Keys(items) ==> r == items
    ensures !IsNullOrEmpty(value) && name !in Keys(items) ==> r == items + [(name, value.value)]
  {
    if IsNullOrEmpty(value) then items
    else if ContainsKey(items, name) then items
    else items + [(name, value.value)]
  }

  lemma AppendFresh(items: Pairs, name: string, value: string)
    requires WellFormed(items) && name != "" && value != "" && name !in Keys(items)
    ensures WellFormed(items + [(name, value)])
  {
    var r := items + [(name, value)];
    forall i, j | 0 <= i < j < |r| ensures r[i].0 != r[j].0 {
      if j == |items| { assert Keys(items)[i] == r[i].0; }
    }
  }

  /** A successful `Add` keeps the names unique. */
  lemma AddToPreserves(items: Pairs, name: Option<string>, value: Option<string>)
    requires WellFormed(items)
    ensures AddTo(items, name, value).Success? ==> WellFormed(AddTo(items, name, value).value)
  {
    if AddTo(items, name, value).Success? { AppendFresh(items, name.value, value.value); }
  }

  /** `AddOption` keeps the names unique. */
  lemma AddOptionToPreserves(items: Pairs, name: string, value: Option<string>)
    requires WellFormed(items) && name != ""
    ensures WellFormed(AddOptionTo(items, name, value))
  {
    if !IsNullOrEmpty(value) && name !in Keys(items) { AppendFresh(items, name, value.value); }
  }

  /**
   * The lenient rule is the strict one with its failures turned into no-ops: wherever `Add`
   * would succeed `AddOption` stores the same pair, and otherwise it stores nothing.
   */
  lemma AddOptionIsForgivingAdd(items: Pairs, name: string, value: Option<string>)
    requires name != ""
    ensures AddOptionTo(items, name, value) ==
      (match AddTo(items, Some(name), value) case Success(r) => r case Failure(_) => items)
  {
  }

  /** A duplicate name is reported ahead of a missing value. */
  lemma DuplicateBeforeMissingValue(items: Pairs, name: string)
    requires name != "" && name in Keys(items)
    ensures AddTo(items, Some(name), None) == Failure(Framework(ArgumentException("paramName")))
    ensures AddTo(items, Some(name), Some("")) == Failure(Framework(ArgumentException("paramName")))
  {
  }

  /** The parameter set the reflective constructor builds: `AddOption` over the properties in order. */
  function Collect(props: seq<(string, Option<string>)>): (r: Pairs)
    requires forall i :: 0 <= i < |props| ==> props[i].0 != ""
    ensures WellFormed(r)
  {
    if props == [] then []
    else
      var init := Collect(props[..|props| - 1]);
      AddOptionToPreserves(init, props[|props| - 1].0, props[|props| - 1].1);
      AddOptionTo(init, props[|props| - 1].0, props[|props| - 1].1)
  }

  /** Independent reading of a property list: the first non-empty value declared for `name`. */
  function FirstKept(props: seq<(string, Option<string>)>, name: string): Option<string>
  {
    if props == [] then None
    else if props[0].0 == name && !IsNullOrEmpty(props[0].1) then props[0].1
    else FirstKept(props[1..], name)
  }

  lemma {:induction false} FirstKeptSnoc(props: seq<(string, Option<string>)>, p: (string, Option<string>), name: string)
    ensures FirstKept(props + [p], name) ==
      if FirstKept(props, name).Some? then FirstKept(props, name)
      else if p.0 == name && !IsNullOrEmpty(p.1) then p.1
      else None
  {
    if props == [] {
      assert ([] + [p])[1..] == [];
    } else {
      assert (props + [p])[1..] == props[1..] + [p];
      FirstKeptSnoc(props[1..], p, name);
    }
  }

  /**
   * The reflective constructor stores, for each property name, the first value whose text is
   * non-empty, and nothing for names that never have one.
   */
  lemma {:induction false} CollectFirstKept(props: seq<(string, Option<string>)>, name: string)
    requires forall i :: 0 <= i < |props| ==> props[i].0 != ""
    ensures Find(Collect(props), name) == FirstKept(props, name)
  {
    if props != [] {
      var init := props[..|props| - 1];
      var p := props[|props| - 1];
      assert props == init + [p];
      CollectFirstKept(init, name);
      FirstKeptSnoc(init, p, name);
      var c := Collect(init);
      if !IsNullOrEmpty(p.1) && p.0 !in Keys(c) {
        FindAppend(c, p.0, p.1.value, name);
      }
    }
  }

  lemma {:induction false} FindAppend(items: Pairs, k: string, v: string, name: string)
    requires k !in Keys(items)
    ensures Find(items + [(k, v)], name) == if name == k then Some(v) else Find(items, name)
  {
    if items == [] {
    } else {
      assert (items + [(k, v)])[1..] == items[1..] + [(k, v)];
      assert Keys(items[1..]) == Keys(items)[1..];
      FindAppend(items[1..], k, v, name);
    }
  }

  /** `RquestParams`: the parameter dictionary `_Items`, changed in place by `Add` and `AddOption`. */
  class RequestParams {
    var items: Pairs

    predicate Valid()
      reads this
    {
      WellFormed(items)
    }

    /** `new RquestParams()`. */
    constructor ()
      ensures Valid() && items == []
    {
      items := [];
    }

    /**
     * `new RquestParams(item, flag)`: the properties the reflection returns, as (name, value
     * text) pairs in declaration order, each passed to `AddOption`. Property names are never
     * empty.
     */
    constructor FromProperties(props: seq<(string, Option<string>)>)
      requires forall i :: 0 <= i < |props| ==> props[i].0 != ""
      ensures Valid() && items == Collect(props)
    {
      items := [];
      new;
      var i := 0;
      while i < |props|
        invariant 0 <= i <= |props|
        invariant Valid() && items == Collect(props[..i])
      {
        assert props[..i + 1][..i] == props[..i];
        var _ := AddOption(Some(props[i].0), props[i].1);
        i := i + 1;
      }
      assert props[..i] == props;
    }

    /** `Add(paramName, value)`: fails, changing nothing, or appends exactly the one pair. */
    method Add(name: Option<string>, value: Option<string>) returns (err: Option<Exception>)
      requires Valid()
      modifies this
      ensures Valid()
      ensures AddTo(old(items), name, value) == (if err.None? then Result.Success(items) else Failure(err.value))
      ensures err.Some? ==> items == old(items)
    {
      var r := AddTo(items, name, value);
      AddToPreserves(items, name, value);
      if r.Success? {
        items := r.value;
        err := None;
      } else {
        err := Some(r.error);
      }
    }

    /** `AddOption(paramName, value)`: only an empty name is an error; other misfits are skipped. */
    method AddOption(name: Option<string>, value: Option<string>) returns (err: Option<Exception>)
      requires Valid()
      modifies this
      ensures Valid()
      ensures IsNullOrEmpty(name) ==> err == Some(Framework(ArgumentNullException("paramName"))) && items == old(items)
      ensures !IsNullOrEmpty(name) ==> err.None? && items == AddOptionTo(old(items), name.value, value)
    {
      if IsNullOrEmpty(name) {
        err := Some(Framework(ArgumentNullException("paramName")));
        return;
      }
      AddOptionToPreserves(items, name.value, value);
      items := AddOptionTo(items, name.value, value);
      err := None;
    }

    /** `GetEnumerator()`: exactly the stored pairs, names distinct. */
    method Enumerate() returns (pairs: Pairs)
      requires Valid()
      ensures pairs == items && UniqueKeys(pairs)
    {
      pairs := items;
    }
  }
}
