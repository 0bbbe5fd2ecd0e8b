/**
 * The dictionary helpers of `JsonUtil`: `DeserializeToDictionary`, the case-insensitive
 * `JsonGet` family, `SerializeFromDictionary` and the bracket test of `IsValidJson`. The
 * Newtonsoft.Json calls they make are library code and come in as the `JsonLibrary` value.
 */
module JsonDictionary {
  import opened Wrappers
  import opened Text
  import opened KeySort
  import opened ApiModes
  import opened AppErrors
  import opened JsonDecode

  /** A `Dictionary<string, string>` in enumeration order; a `None` value is a null string. */
  type Entries = seq<(string, Option<string>)>

  /** The Newtonsoft.Json entry points the helpers call. */
  datatype JsonLibrary = JsonLibrary(
    deserializeObject: string -> Result<Option<Json>, Exception>,  // JsonConvert.DeserializeObject(json); None: null
    deserializeDictionary: string -> Result<Entries, Exception>,   // DeserializeObject<Dictionary<string, string>>
    serializeToken: Json -> string,                                 // SerializeObject(token, settings)
    serializeDictionary: Entries -> string,                         // SerializeObject(dic)
    quote: string -> string,                                        // how JsonTextWriter writes a string
    parses: string -> bool)                                         // JToken.Parse accepts the text

  /** The message of `Dictionary.Add` for a key already present. */
  const DuplicateEntryMessage := "An item with the same key has already been added."

  /** `JValue.ToString()`: a string as it is, `True`/`False`, an integer in decimal, null as "". */
  function ScalarText(s: Scalar): string
  {
    match s
    case JString(t) => t
    case JInteger(i) => IntToString(i)
    case JBoolean(b) => if b then "True" else "False"
    case JNull => ""
    case JOther(t) => t
  }

  /** Object and array values are stored as their JSON text, anything else as its string form. */
  function EntryValue(v: Json, serialize: Json -> string): string
  {
    if v.JObject? || v.JArray? then serialize(v) else ScalarText(v.v)
  }

  /** Some property holds an object or an array (the `isHasObject` test). */
  predicate HasContainer(ps: seq<(string, Json)>) {
    exists i :: 0 <= i < |ps| && (ps[i].1.JObject? || ps[i].1.JArray?)
  }

  /** The `foreach` over the properties from property `i` on, `acc` being the dictionary so far. */
  function EntriesFrom(ps: seq<(string, Json)>, serialize: Json -> string, i: nat, acc: Entries): Result<Entries, Exception>
    requires i <= |ps|
    decreases |ps| - i
  {
    if i == |ps| then Result.Success(acc)
    else if ps[i].0 in Keys(acc) then Failure(Framework(ArgumentException(DuplicateEntryMessage)))
    else EntriesFrom(ps, serialize, i + 1, acc + [(ps[i].0, Some(EntryValue(ps[i].1, serialize)))])
  }

  /**
   * `DeserializeToDictionary`: a null parse fails in LINQ's `Any` (parameter `source`); a
   * top-level scalar comes back from the library as a plain CLR value, not a token, so the
   * cast to `JToken` fails; an array gives the empty dictionary; an object with no object or
   * array property goes to the library's dictionary conversion; and otherwise the
   * properties are added one by one.
   */
  function DictionaryOf(json: string, lib: JsonLibrary): Result<Entries, Exception>
  {
    var parsed :- lib.deserializeObject(json);
    if parsed.None? then Failure(Framework(ArgumentNullException("source")))
    else match parsed.value
      case JArray(_) => Result.Success([])
      case JValue(_) => Failure(Framework(InvalidCastException))
      case JObject(ps) =>
        if !HasContainer(ps) then lib.deserializeDictionary(json)
        else EntriesFrom(ps, lib.serializeToken, 0, [])
  }

  /** `DeserializeToDictionary` as it runs, filling the dictionary in a loop. */
  method DeserializeToDictionary(json: string, lib: JsonLibrary) returns (r: Result<Entries, Exception>)
    ensures r == DictionaryOf(json, lib)
  {
    var parsed := lib.deserializeObject(json);
    if parsed.Failure? {
      return Failure(parsed.error);
    }
    if parsed.value.None? {
      return Failure(Framework(ArgumentNullException("source")));
    }
    var jObj := parsed.value.value;
    if jObj.JArray? {
      return Result.Success([]);
    }
    if jObj.JValue? {
      return Failure(Framework(InvalidCastException));
    }
    if !HasContainer(jObj.props) {
      return lib.deserializeDictionary(json);
    }
    var ps := jObj.props;
    var dic: Entries := [];
    for i := 0 to |ps|
      invariant EntriesFrom(ps, lib.serializeToken, i, dic) == EntriesFrom(ps, lib.serializeToken, 0, [])
    {
      var (name, value) := ps[i];
      var text := EntryValue(value, lib.serializeToken);
      if name in Keys(dic) {
        return Failure(Framework(ArgumentException(DuplicateEntryMessage)));
      }
      dic := dic + [(name, Some(text))];
    }
    return Result.Success(dic);
  }

  /** The dictionary of an object's properties: each name with its stored text, in order. */
  function EntryList(ps: seq<(string, Json)>, serialize: Json -> string): (d: Entries)
    ensures |d| == |ps|
  {
    seq(|ps|, k requires 0 <= k < |ps| => (ps[k].0, Some(EntryValue(ps[k].1, serialize))))
  }

  /** The loop has added properties `0..i`, whose names are distinct. */
  predicate EntriesSoFar(ps: seq<(string, Json)>, serialize: Json -> string, i: nat, acc: Entries) {
    && i <= |ps| && |acc| == i
    && (forall k :: 0 <= k < i ==> acc[k] == (ps[k].0, Some(EntryValue(ps[k].1, serialize))))
    && (forall a, b :: 0 <= a < b < i ==> ps[a].0 != ps[b].0)
  }

  /**
   * From any point of the loop, the names seen so far being distinct: the dictionary comes
   * out exactly when all names are distinct, and is then the object's entry list; otherwise
   * `Add` refuses the first repeated name.
   */
  lemma {:induction false} EntriesFromShape(ps: seq<(string, Json)>, serialize: Json -> string, i: nat, acc: Entries)
    requires EntriesSoFar(ps, serialize, i, acc)
    ensures var r := EntriesFrom(ps, serialize, i, acc);
      && (r.Success? <==> UniqueKeys(ps))
      && (r.Success? ==> r.value == EntryList(ps, serialize))
      && (r.Failure? ==> r.error == Framework(ArgumentException(DuplicateEntryMessage)))
    decreases |ps| - i
  {
    if i == |ps| {
      assert acc == EntryList(ps, serialize);
    } else if ps[i].0 in Keys(acc) {
      var a :| 0 <= a < |acc| && Keys(acc)[a] == ps[i].0;
      assert ps[a].0 == ps[i].0;
    } else {
      var acc' := acc + [(ps[i].0, Some(EntryValue(ps[i].1, serialize)))];
      forall a | 0 <= a < i ensures ps[a].0 != ps[i].0 {
        assert Keys(acc)[a] == ps[a].0;
      }
      assert EntriesSoFar(ps, serialize, i + 1, acc');
      EntriesFromShape(ps, serialize, i + 1, acc');
    }
  }

  /**
   * Every outcome of `DeserializeToDictionary`. A parse failure is passed on and a null parse
   * fails in `Any`; a scalar fails the cast; an array gives no entries; an object without an
   * object- or array-valued property is the library's conversion. Otherwise the dictionary
   * holds every property once, in order, object and array values as their JSON text and
   * scalars as their string form, and a repeated name is refused by `Add`.
   */
  lemma DictionaryOfShape(json: string, lib: JsonLibrary)
    ensures var p := lib.deserializeObject(json);
      var r := DictionaryOf(json, lib);
      && (p.Failure? ==> r == Failure(p.error))
      && (p.Success? && p.value.None? ==> r == Failure(Framework(ArgumentNullException("source"))))
      && (p.Success? && p.value.Some? ==>
            var j := p.value.value;
            && (j.JValue? ==> r == Failure(Framework(InvalidCastException)))
            && (j.JArray? ==> r == Result.Success([]))
            && (j.JObject? && !HasContainer(j.props) ==> r == lib.deserializeDictionary(json))
            && (j.JObject? && HasContainer(j.props) ==>
                  && (r.Success? <==> UniqueKeys(j.props))
                  && (r.Success? ==> r.value == EntryList(j.props, lib.serializeToken))
                  && (r.Failure? ==> r.error == Framework(ArgumentException(DuplicateEntryMessage)))))
  {
    var p := lib.deserializeObject(json);
    if p.Success? && p.value.Some? && p.value.value.JObject? && HasContainer(p.value.value.props) {
      EntriesFromShape(p.value.value.props, lib.serializeToken, 0, []);
    }
  }

  /** Upper-casing of the ASCII letters, the part of `OrdinalIgnoreCase` the model keeps. */
  function UpperAscii(c: char): char {
    if 'a' <= c <= 'z' then (c as int - 32) as char else c
  }

  function FoldCase(s: string): (r: string)
    ensures |r| == |s| && forall i :: 0 <= i < |s| ==> r[i] == UpperAscii(s[i])
  {
    seq(|s|, i requires 0 <= i < |s| => UpperAscii(s[i]))
  }

  /** No two keys are equal up to case. */
  predicate CaseDistinct(d: Entries) {
    forall i, j :: 0 <= i < j < |d| ==> FoldCase(d[i].0) != FoldCase(d[j].0)
  }

  /**
   * `JsonGet(json)`: blank input gives the empty dictionary; otherwise the dictionary is
   * copied into one that compares keys ignoring case, which refuses two keys equal up to case.
   */
  function JsonGet(json: string, lib: JsonLibrary): Result<Entries, Exception>
  {
    if AllWhiteSpace(json) then Result.Success([])
    else
      var d :- DictionaryOf(json, lib);
      if CaseDistinct(d) then Result.Success(d)
      else Failure(Framework(ArgumentException(DuplicateEntryMessage)))
  }

  /**
   * `JsonGet(json)` against `DeserializeToDictionary`: blank text gives the empty dictionary;
   * otherwise a failure of the deserialisation passes through, and its dictionary comes back
   * unchanged exactly when no two keys are equal up to case, every key then finding its own
   * entry; a case clash is `Dictionary.Add`'s `ArgumentException`.
   */
  lemma JsonGetShape(json: string, lib: JsonLibrary)
    ensures AllWhiteSpace(json) ==> JsonGet(json, lib) == Result.Success([])
    ensures !AllWhiteSpace(json) && DictionaryOf(json, lib).Failure? ==>
      JsonGet(json, lib) == Failure(DictionaryOf(json, lib).error)
    ensures !AllWhiteSpace(json) && DictionaryOf(json, lib).Success? ==>
      var d := DictionaryOf(json, lib).value;
      && (JsonGet(json, lib).Success? <==> CaseDistinct(d))
      && (JsonGet(json, lib).Success? ==> JsonGet(json, lib).value == d)
      && (JsonGet(json, lib).Failure? ==>
            JsonGet(json, lib).error == Framework(ArgumentException(DuplicateEntryMessage)))
    ensures JsonGet(json, lib).Success? ==>
      var d := JsonGet(json, lib).value;
      forall k :: 0 <= k < |d| ==> Find(d, d[k].0) == Some(k)
  {
    if JsonGet(json, lib).Success? {
      var d := JsonGet(json, lib).value;
      forall k | 0 <= k < |d|
        ensures Find(d, d[k].0) == Some(k)
      {
        FindOwnKey(d, k, d[k].0);
      }
    }
  }

  /** A non-blank text holding a top-level scalar fails every `JsonGet` with the failed cast. */
  lemma JsonGetOfScalar(json: string, property: string, properties: seq<string>, lib: JsonLibrary)
    requires !AllWhiteSpace(json)
    requires lib.deserializeObject(json).Success? && lib.deserializeObject(json).value.Some?
    requires lib.deserializeObject(json).value.value.JValue?
    ensures JsonGet(json, lib) == Failure(Framework(InvalidCastException))
    ensures JsonGetProperty(json, property, lib) == Failure(Framework(InvalidCastException))
    ensures JsonGetArray(json, properties, lib) == Failure(Framework(InvalidCastException))
  {
  }

  /** The first entry from `i` on whose key equals `key` up to case. */
  function FindFrom(d: Entries, key: string, i: nat): (r: Option<nat>)
    requires i <= |d|
    ensures r.None? <==> forall k :: i <= k < |d| ==> FoldCase(d[k].0) != FoldCase(key)
    ensures r.Some? ==> i <= r.value < |d| && FoldCase(d[r.value].0) == FoldCase(key)
    ensures r.Some? ==> forall k :: i <= k < r.value ==> FoldCase(d[k].0) != FoldCase(key)
    decreases |d| - i
  {
    if i == |d| then None
    else if FoldCase(d[i].0) == FoldCase(key) then Some(i)
    else FindFrom(d, key, i + 1)
  }

  /** `ContainsKey` / the indexer of a case-insensitive dictionary: where `key` is, if anywhere. */
  function Find(d: Entries, key: string): Option<nat>
  {
    FindFrom(d, key, 0)
  }

  /** `JsonGet(json, property)`: the value under `property` ignoring case, null when absent. */
  function JsonGetProperty(json: string, property: string, lib: JsonLibrary): Result<Option<string>, Exception>
  {
    var d :- JsonGet(json, lib);
    var i := Find(d, property);
    if i.None? then Result.Success(None) else Result.Success(d[i.value].1)
  }

  /** `propertys.Select(o => dic[o]).ToArray()`: the first missing key throws. */
  function LookupAll(d: Entries, properties: seq<string>): Result<seq<Option<string>>, Exception>
  {
    if properties == [] then Result.Success([])
    else
      var i := Find(d, properties[0]);
      if i.None? then Failure(Framework(KeyNotFoundException))
      else
        var rest :- LookupAll(d, properties[1..]);
        Result.Success([d[i.value].1] + rest)
  }

  /** `JsonGetArray(json, propertys)`. */
  function JsonGetArray(json: string, properties: seq<string>, lib: JsonLibrary): Result<seq<Option<string>>, Exception>
  {
    var d :- JsonGet(json, lib);
    LookupAll(d, properties)
  }

  /** Lookup ignores case: two spellings of a key equal up to case find the same entry. */
  lemma {:induction false} FindIgnoresCase(d: Entries, a: string, b: string, i: nat)
    requires i <= |d| && FoldCase(a) == FoldCase(b)
    ensures FindFrom(d, a, i) == FindFrom(d, b, i)
    decreases |d| - i
  {
    if i < |d| {
      FindIgnoresCase(d, a, b, i + 1);
    }
  }

  /** In a dictionary with keys distinct up to case, every key finds its own entry. */
  lemma FindOwnKey(d: Entries, k: nat, key: string)
    requires CaseDistinct(d) && k < |d| && FoldCase(key) == FoldCase(d[k].0)
    ensures Find(d, key) == Some(k)
  {
    assert FoldCase(d[k].0) == FoldCase(key);
  }

  /**
   * `JsonGet(json, property)`: blank input has no properties; the answer does not depend on
   * the case of `property`; it is null exactly when no key matches, and otherwise the value
   * of the (only) key equal to `property` up to case.
   */
  lemma JsonGetPropertyShape(json: string, a: string, b: string, lib: JsonLibrary)
    requires FoldCase(a) == FoldCase(b)
    ensures AllWhiteSpace(json) ==> JsonGetProperty(json, a, lib) == Result.Success(None)
    ensures JsonGetProperty(json, a, lib) == JsonGetProperty(json, b, lib)
    ensures JsonGet(json, lib).Success? ==>
      var d := JsonGet(json, lib).value;
      && CaseDistinct(d)
      && (JsonGetProperty(json, a, lib) == Result.Success(None) <==>
            forall k :: 0 <= k < |d| ==> FoldCase(d[k].0) != FoldCase(a) || d[k].1.None?)
      && (forall k :: 0 <= k < |d| && FoldCase(d[k].0) == FoldCase(a) ==>
            JsonGetProperty(json, a, lib) == Result.Success(d[k].1))
  {
    var g := JsonGet(json, lib);
    if g.Success? {
      var d := g.value;
      FindIgnoresCase(d, a, b, 0);
      forall k | 0 <= k < |d| && FoldCase(d[k].0) == FoldCase(a)
        ensures JsonGetProperty(json, a, lib) == Result.Success(d[k].1)
      {
        FindOwnKey(d, k, a);
      }
    }
  }

  /**
   * `JsonGetArray` answers every property as the one-property `JsonGet` would, in order,
   * and fails with `KeyNotFoundException` exactly when some property is absent.
   */
  lemma {:induction false} LookupAllShape(d: Entries, properties: seq<string>)
    ensures var r := LookupAll(d, properties);
      && (r.Success? <==> forall k :: 0 <= k < |properties| ==> Find(d, properties[k]).Some?)
      && (r.Failure? ==> r.error == Framework(KeyNotFoundException))
      && (r.Success? ==> (|r.value| == |properties| &&
            forall k :: 0 <= k < |properties| ==> r.value[k] == d[Find(d, properties[k]).value].1))
  {
    if properties != [] {
      var tail := properties[1..];
      LookupAllShape(d, tail);
      assert forall k :: 1 <= k < |properties| ==> tail[k - 1] == properties[k];
    }
  }

  /** `JsonGetArray` and the one-property `JsonGet` agree on every property that is present. */
  lemma JsonGetArrayAgrees(json: string, properties: seq<string>, lib: JsonLibrary)
    requires JsonGetArray(json, properties, lib).Success?
    ensures var r := JsonGetArray(json, properties, lib).value;
      |r| == |properties| &&
      forall k :: 0 <= k < |properties| ==> JsonGetProperty(json, properties[k], lib) == Result.Success(r[k])
  {
    LookupAllShape(JsonGet(json, lib).value, properties);
  }

  /** The names `SerializeFromDictionary` may write as raw JSON (`_ObjectArrayFeilds`). */
  const ObjectArrayFields: seq<string> := ["RefundItems"]

  /** A value written as it is: `{...}` or `[{...}]` under one of the object/array names. */
  predicate IsRawValue(key: string, v: string) {
    key in ObjectArrayFields &&
    ((StartsWith(v, "{") && EndsWith(v, "}")) || (StartsWith(v, "[{") && EndsWith(v, "}]")))
  }

  /**
   * What the writer puts down for one entry: the quoted name, a colon, and the value raw,
   * quoted, or `null`. A null value under an object/array name fails in `StartsWith`.
   */
  function EntryText(e: (string, Option<string>), quote: string -> string): Result<string, Exception>
  {
    if e.0 in ObjectArrayFields && e.1.None? then Failure(Framework(NullReferenceException))
    else
      var value :=
        if e.1.None? then "null"
        else if IsRawValue(e.0, e.1.value) then e.1.value
        else quote(e.1.value);
      Result.Success(quote(e.0) + ":" + value)
  }

  /** The writer loop from entry `i` on, `texts` being the entries written so far. */
  function TextsFrom(dic: Entries, quote: string -> string, i: nat, texts: seq<string>): Result<seq<string>, Exception>
    requires i <= |dic|
    decreases |dic| - i
  {
    if i == |dic| then Result.Success(texts)
    else
      var t :- EntryText(dic[i], quote);
      TextsFrom(dic, quote, i + 1, texts + [t])
  }

  /**
   * `SerializeFromDictionary`: without an object/array name among the keys, the library
   * serializes the dictionary; otherwise the entries are written by hand between braces,
   * separated by commas.
   */
  function SerializedDictionary(dic: Entries, lib: JsonLibrary): Result<string, Exception>
  {
    if forall k :: 0 <= k < |dic| ==> dic[k].0 !in ObjectArrayFields then
      Result.Success(lib.serializeDictionary(dic))
    else
      var texts :- TextsFrom(dic, lib.quote, 0, []);
      Result.Success("{" + Join(",", texts) + "}")
  }

  /** `SerializeFromDictionary` as it runs: the writer loop appends to the text. */
  method SerializeFromDictionary(dic: Entries, lib: JsonLibrary) returns (r: Result<string, Exception>)
    ensures r == SerializedDictionary(dic, lib)
  {
    if forall k :: 0 <= k < |dic| ==> dic[k].0 !in ObjectArrayFields {
      return Result.Success(lib.serializeDictionary(dic));
    }
    var sb := "{";
    ghost var texts: seq<string> := [];
    for i := 0 to |dic|
      invariant |texts| == i
      invariant TextsFrom(dic, lib.quote, i, texts) == TextsFrom(dic, lib.quote, 0, [])
      invariant sb == "{" + Join(",", texts)
    {
      var t := EntryText(dic[i], lib.quote);
      if t.Failure? {
        return Failure(t.error);
      }
      if i > 0 {
        JoinSnoc(",", texts, t.value);
        sb := sb + "," + t.value;
      } else {
        sb := sb + t.value;
      }
      texts := texts + [t.value];
    }
    sb := sb + "}";
    return Result.Success(sb);
  }

  /**
   * The hand-written path of `SerializeFromDictionary` succeeds exactly when no
   * object/array name holds null, and then writes every entry, in order.
   */
  lemma {:induction false} TextsFromShape(dic: Entries, quote: string -> string, i: nat, texts: seq<string>)
    requires i <= |dic| && |texts| == i
    requires forall k :: 0 <= k < i ==> EntryText(dic[k], quote) == Result.Success(texts[k])
    ensures var r := TextsFrom(dic, quote, i, texts);
      && (r.Success? <==> forall k :: i <= k < |dic| ==> !(dic[k].0 in ObjectArrayFields && dic[k].1.None?))
      && (r.Failure? ==> r.error == Framework(NullReferenceException))
      && (r.Success? ==> (|r.value| == |dic| &&
            forall k :: 0 <= k < |dic| ==> EntryText(dic[k], quote) == Result.Success(r.value[k])))
    decreases |dic| - i
  {
    if i < |dic| {
      var t := EntryText(dic[i], quote);
      if t.Success? {
        TextsFromShape(dic, quote, i + 1, texts + [t.value]);
      }
    }
  }

  /**
   * A value under `RefundItems` that looks like an object or a list of objects is written
   * unquoted; the same value under another name, and any other value, is quoted.
   */
  lemma RefundItemsWrittenRaw(quote: string -> string)
    ensures EntryText(("RefundItems", Some("[{\"Id\":1}]")), quote)
      == Result.Success(quote("RefundItems") + ":" + "[{\"Id\":1}]")
    ensures EntryText(("Items", Some("[{\"Id\":1}]")), quote)
      == Result.Success(quote("Items") + ":" + quote("[{\"Id\":1}]"))
    ensures EntryText(("RefundItems", Some("[1]")), quote)
      == Result.Success(quote("RefundItems") + ":" + quote("[1]"))
  {
    var v := "[{\"Id\":1}]";
    assert v[..2] == "[{" && v[|v| - 2..] == "}]";
    assert IsRawValue("RefundItems", v);
    assert !IsRawValue("Items", v);
    var w := "[1]";
    assert w[..1] == "[" && w[..2] == "[1";
  }

  /**
   * `IsValidJson`: null or blank input is not JSON; otherwise the trimmed text must start
   * with `{` and end with `}` or start with `[` and end with `]`, and then parse.
   */
  function IsValidJson(input: Option<string>, parses: string -> bool): bool
  {
    if IsNullOrWhiteSpace(input) then false
    else
      var t := Trim(input.value);
      if (StartsWith(t, "{") && EndsWith(t, "}")) || (StartsWith(t, "[") && EndsWith(t, "]")) then parses(t)
      else false
  }

  /**
   * Valid JSON is exactly a non-null text whose trimmed form has at least two characters,
   * the first and last a matching pair of braces or brackets, and that parses.
   */
  lemma IsValidJsonShape(input: Option<string>, parses: string -> bool)
    ensures IsValidJson(input, parses) <==>
      && input.Some?
      && var t := Trim(input.value);
      && |t| >= 2
      && ((t[0] == '{' && t[|t| - 1] == '}') || (t[0] == '[' && t[|t| - 1] == ']'))
      && parses(t)
  {
    if input.Some? {
      TrimEmptyIffBlank(input.value);
      BracketTest(Trim(input.value));
    }
  }

  /** The bracket test on a text, character by character. */
  lemma BracketTest(t: string)
    ensures (StartsWith(t, "{") && EndsWith(t, "}")) || (StartsWith(t, "[") && EndsWith(t, "]")) <==>
      |t| >= 2 && ((t[0] == '{' && t[|t| - 1] == '}') || (t[0] == '[' && t[|t| - 1] == ']'))
  {
    if |t| >= 1 {
      assert StartsWith(t, "{") <==> t[0] == '{';
      assert EndsWith(t, "}") <==> t[|t| - 1] == '}';
      assert StartsWith(t, "[") <==> t[0] == '[';
      assert EndsWith(t, "]") <==> t[|t| - 1] == ']';
    }
  }
}
