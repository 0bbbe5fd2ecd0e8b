/**
 * The duplicate-rejecting JSON rebuild of `JsonUtil.DeserializeReader`. The text reader is
 * modelled by the token stream it produces; the rebuild turns that stream into a JSON value,
 * refusing an object in which a property name occurs twice (names compare ordinally).
 */
module JsonDecode {
  import opened Wrappers
  import opened Text
  import opened KeySort

  /** A primitive value as the reader reports it. */
  datatype Scalar =
    | JString(s: string)
    | JInteger(i: int)
    | JBoolean(b: bool)
    | JNull
    | JOther(text: string)   // floats and dates, kept as their text

  /** JSON values: `JObject` (properties in order), `JArray`, `JValue`. */
  datatype Json =
    | JObject(props: seq<(string, Json)>)
    | JArray(items: seq<Json>)
    | JValue(v: Scalar)

  /** The tokens of `JsonTextReader` the rebuild distinguishes. */
  datatype Token =
    | StartObject
    | EndObject
    | StartArray
    | EndArray
    | PropertyName(name: string)
    | Primitive(v: Scalar)

  /**
   * Why a rebuild fails: a repeated property name, or a stream the reader would have refused
   * (a token out of place, or the input ending inside a value).
   */
  datatype DecodeError = DuplicateKey(key: string) | Malformed

  /** Every object in the value, however deeply nested, has pairwise distinct names. */
  predicate Strict(j: Json)
    decreases j
  {
    match j
    case JObject(ps) => UniqueKeys(ps) && forall i :: 0 <= i < |ps| ==> Strict(ps[i].1)
    case JArray(xs) => forall i :: 0 <= i < |xs| ==> Strict(xs[i])
    case JValue(_) => true
  }

  /** `k` occurs twice among the names of some object inside `j`. */
  predicate RepeatsKey(j: Json, k: string)
    decreases j
  {
    match j
    case JObject(ps) =>
      || (exists a, b :: 0 <= a < b < |ps| && ps[a].0 == k && ps[b].0 == k)
      || (exists i :: 0 <= i < |ps| && RepeatsKey(ps[i].1, k))
    case JArray(xs) => exists i :: 0 <= i < |xs| && RepeatsKey(xs[i], k)
    case JValue(_) => false
  }

  // ---------------------------------------------------------------- the tokens of a value

  function Concat(ss: seq<seq<Token>>): (r: seq<Token>)
  {
    if ss == [] then [] else ss[0] + Concat(ss[1..])
  }

  /** The token stream the reader produces for the text of `j`. */
  function Tokens(j: Json): (t: seq<Token>)
    ensures |t| >= 1 && t[0] != EndArray && t[0] != EndObject
    decreases j
  {
    match j
    case JObject(ps) =>
      [StartObject] + Concat(seq(|ps|, i requires 0 <= i < |ps| => [PropertyName(ps[i].0)] + Tokens(ps[i].1))) + [EndObject]
    case JArray(xs) =>
      [StartArray] + Concat(seq(|xs|, i requires 0 <= i < |xs| => Tokens(xs[i]))) + [EndArray]
    case JValue(v) => [Primitive(v)]
  }

  /** The tokens of the properties of an object, between its braces. */
  function MemberTokens(ps: seq<(string, Json)>): seq<Token>
  {
    Concat(seq(|ps|, i requires 0 <= i < |ps| => [PropertyName(ps[i].0)] + Tokens(ps[i].1)))
  }

  /** The tokens of the elements of an array, between its brackets. */
  function ElementTokens(xs: seq<Json>): seq<Token>
  {
    Concat(seq(|xs|, i requires 0 <= i < |xs| => Tokens(xs[i])))
  }

  lemma TokensShape(j: Json)
    ensures j.JObject? ==> Tokens(j) == [StartObject] + MemberTokens(j.props) + [EndObject]
    ensures j.JArray? ==> Tokens(j) == [StartArray] + ElementTokens(j.items) + [EndArray]
  {
  }

  lemma MemberTokensCons(ps: seq<(string, Json)>)
    requires ps != []
    ensures MemberTokens(ps) == [PropertyName(ps[0].0)] + Tokens(ps[0].1) + MemberTokens(ps[1..])
  {
    var f := seq(|ps|, i requires 0 <= i < |ps| => [PropertyName(ps[i].0)] + Tokens(ps[i].1));
    assert f[1..] == seq(|ps[1..]|, i requires 0 <= i < |ps[1..]| => [PropertyName(ps[1..][i].0)] + Tokens(ps[1..][i].1));
  }

  lemma ElementTokensCons(xs: seq<Json>)
    requires xs != []
    ensures ElementTokens(xs) == Tokens(xs[0]) + ElementTokens(xs[1..])
  {
    var f := seq(|xs|, i requires 0 <= i < |xs| => Tokens(xs[i]));
    assert f[1..] == seq(|xs[1..]|, i requires 0 <= i < |xs[1..]| => Tokens(xs[1..][i]));
  }

  /** `t` occurs in `toks` starting at position `p`. */
  predicate At(toks: seq<Token>, p: nat, t: seq<Token>) {
    p + |t| <= |toks| && toks[p..p + |t|] == t
  }

  lemma AtSplit(toks: seq<Token>, p: nat, a: seq<Token>, b: seq<Token>)
    requires At(toks, p, a + b)
    ensures At(toks, p, a) && At(toks, p + |a|, b)
  {
    assert toks[p..p + |a|] == (a + b)[..|a|];
    assert toks[p + |a|..p + |a| + |b|] == (a + b)[|a|..];
  }

  // ---------------------------------------------------------------- the rebuild

  /**
   * The value whose first token is at `p`, and the position of its last token (where the
   * reader is left standing).
   */
  function ReadValue(toks: seq<Token>, p: nat): (r: Result<(Json, nat), DecodeError>)
    requires p < |toks|
    ensures r.Success? ==> p <= r.value.1 < |toks|
    decreases |toks| - p, 0
  {
    match toks[p]
    case StartObject => ReadMembers(toks, p + 1, [])
    case StartArray => ReadElements(toks, p + 1, [])
    case Primitive(v) => Result.Success((JValue(v), p))
    case _ => Failure(Malformed)
  }

  /**
   * The properties of an object from position `q` on, `acc` holding those already read: a
   * property name, its value, and then the next property or the end of the object. The value
   * is rebuilt before its name is checked against `acc`.
   */
  function ReadMembers(toks: seq<Token>, q: nat, acc: seq<(string, Json)>): (r: Result<(Json, nat), DecodeError>)
    requires q <= |toks|
    ensures r.Success? ==> q <= r.value.1 < |toks|
    ensures r.Success? ==> r.value.0.JObject?
    decreases |toks| - q, 1
  {
    if q == |toks| then Failure(Malformed)
    else match toks[q]
      case EndObject => Result.Success((JObject(acc), q))
      case PropertyName(name) =>
        if q + 1 == |toks| then Failure(Malformed)
        else
          var (v, e) :- ReadValue(toks, q + 1);
          if name in Keys(acc) then Failure(DuplicateKey(name))
          else ReadMembers(toks, e + 1, acc + [(name, v)])
      case _ => Failure(Malformed)
  }

  /** The elements of an array from position `q` on, `acc` holding those already read. */
  function ReadElements(toks: seq<Token>, q: nat, acc: seq<Json>): (r: Result<(Json, nat), DecodeError>)
    requires q <= |toks|
    ensures r.Success? ==> q <= r.value.1 < |toks|
    ensures r.Success? ==> r.value.0.JArray?
    decreases |toks| - q, 1
  {
    if q == |toks| then Failure(Malformed)
    else if toks[q] == EndArray then Result.Success((JArray(acc), q))
    else
      var (v, e) :- ReadValue(toks, q);
      ReadElements(toks, e + 1, acc + [v])
  }

  lemma AddFreshKey(acc: seq<(string, Json)>, name: string, v: Json)
    requires UniqueKeys(acc) && name !in Keys(acc)
    ensures UniqueKeys(acc + [(name, v)])
  {
    var r := acc + [(name, v)];
    forall i, j | 0 <= i < j < |r| ensures r[i].0 != r[j].0 {
      if j == |acc| { assert Keys(acc)[i] == r[i].0; }
    }
  }

  /** Whatever the rebuild returns is strict: no object in it repeats a name. */
  lemma {:induction false} ReadValueStrict(toks: seq<Token>, p: nat)
    requires p < |toks|
    ensures ReadValue(toks, p).Success? ==> Strict(ReadValue(toks, p).value.0)
    decreases |toks| - p, 0
  {
    match toks[p]
    case StartObject => ReadMembersStrict(toks, p + 1, []);
    case StartArray => ReadElementsStrict(toks, p + 1, []);
    case _ =>
  }

  /** An object rebuilt onto distinct, strict properties is strict. */
  lemma {:induction false} ReadMembersStrict(toks: seq<Token>, q: nat, acc: seq<(string, Json)>)
    requires q <= |toks|
    requires UniqueKeys(acc) && forall i :: 0 <= i < |acc| ==> Strict(acc[i].1)
    ensures ReadMembers(toks, q, acc).Success? ==> Strict(ReadMembers(toks, q, acc).value.0)
    decreases |toks| - q, 1
  {
    if q < |toks| && toks[q].PropertyName? && q + 1 < |toks| {
      var name := toks[q].name;
      var rv := ReadValue(toks, q + 1);
      if rv.Success? && name !in Keys(acc) {
        ReadValueStrict(toks, q + 1);
        var (v, e) := rv.value;
        AddFreshKey(acc, name, v);
        ReadMembersStrict(toks, e + 1, acc + [(name, v)]);
      }
    }
  }

  /** An array rebuilt onto strict elements is strict. */
  lemma {:induction false} ReadElementsStrict(toks: seq<Token>, q: nat, acc: seq<Json>)
    requires q <= |toks|
    requires forall i :: 0 <= i < |acc| ==> Strict(acc[i])
    ensures ReadElements(toks, q, acc).Success? ==> Strict(ReadElements(toks, q, acc).value.0)
    decreases |toks| - q, 1
  {
    if q < |toks| && toks[q] != EndArray {
      var rv := ReadValue(toks, q);
      if rv.Success? {
        ReadValueStrict(toks, q);
        var (v, e) := rv.value;
        ReadElementsStrict(toks, e + 1, acc + [v]);
      }
    }
  }

  /**
   * `DeserializeReader` on a fresh reader: the position before the first token is skipped,
   * and an empty stream gives a null value.
   */
  function Deserialize(toks: seq<Token>): (r: Result<Json, DecodeError>)
    ensures r.Success? ==> Strict(r.value)
    ensures toks == [] ==> r == Result.Success(JValue(JNull))
  {
    if toks == [] then Result.Success(JValue(JNull))
    else
      var (j, _) :- ReadValue(toks, 0);
      ReadValueStrict(toks, 0);
      Result.Success(j)
  }

  /** The message of the `JsonException` raised for a repeated name. */
  function DuplicateMessage(key: string): string {
    "傳入的JSON格式有重覆的屬性\"" + key + "\""
  }

  // ---------------------------------------------------------------- reading back what was written

  /** One property read and accepted: the rebuild goes on after its value. */
  lemma MembersStep(toks: seq<Token>, q: nat, acc: seq<(string, Json)>, name: string, v: Json, e: nat)
    requires q + 1 < |toks| && toks[q] == PropertyName(name)
    requires ReadValue(toks, q + 1).Success? && ReadValue(toks, q + 1).value == (v, e)
    requires name !in Keys(acc)
    ensures ReadMembers(toks, q, acc) == ReadMembers(toks, e + 1, acc + [(name, v)])
  {
  }

  /** One property read whose name was seen before: the rebuild stops there. */
  lemma MembersRepeat(toks: seq<Token>, q: nat, acc: seq<(string, Json)>, name: string, v: Json, e: nat)
    requires q + 1 < |toks| && toks[q] == PropertyName(name)
    requires ReadValue(toks, q + 1) == Result.Success((v, e))
    requires name in Keys(acc)
    ensures ReadMembers(toks, q, acc) == Failure(DuplicateKey(name))
  {
  }

  /** A property whose value fails: the rebuild fails the same way. */
  lemma MembersValueFails(toks: seq<Token>, q: nat, acc: seq<(string, Json)>)
    requires q + 1 < |toks| && toks[q].PropertyName?
    requires ReadValue(toks, q + 1).Failure?
    ensures ReadMembers(toks, q, acc) == Failure(ReadValue(toks, q + 1).error)
  {
  }

  /** One element read: the rebuild goes on after it. */
  lemma ElementsStep(toks: seq<Token>, q: nat, acc: seq<Json>, v: Json, e: nat)
    requires q < |toks| && toks[q] != EndArray
    requires ReadValue(toks, q) == Result.Success((v, e))
    ensures ReadElements(toks, q, acc) == ReadElements(toks, e + 1, acc + [v])
  {
  }

  /** An element that fails: the rebuild fails the same way. */
  lemma ElementsValueFails(toks: seq<Token>, q: nat, acc: seq<Json>)
    requires q < |toks| && toks[q] != EndArray
    requires ReadValue(toks, q).Failure?
    ensures ReadElements(toks, q, acc) == Failure(ReadValue(toks, q).error)
  {
  }

  /** A strict value is rebuilt from its own token stream, wherever that stream sits. */
  lemma {:induction false} ReadTokens(j: Json, toks: seq<Token>, p: nat)
    requires Strict(j) && At(toks, p, Tokens(j))
    ensures ReadValue(toks, p) == Result.Success((j, p + |Tokens(j)| - 1))
    decreases j, 1, 0
  {
    match j
    case JValue(_) =>
      assert toks[p] == toks[p..p + 1][0];
    case JObject(ps) =>
      ObjectOpen(toks, p, ps);
      ReadMemberTokens(j, 0, toks, p + 1);
      assert p + 1 + |MemberTokens(ps[0..])| == p + |Tokens(j)| - 1;
    case JArray(xs) =>
      ArrayOpen(toks, p, xs);
      ReadElementTokens(j, 0, toks, p + 1);
      assert p + 1 + |ElementTokens(xs[0..])| == p + |Tokens(j)| - 1;
  }

  /** An object's stream opens with its brace, and its properties follow from the start. */
  lemma ObjectOpen(toks: seq<Token>, p: nat, ps: seq<(string, Json)>)
    requires At(toks, p, Tokens(JObject(ps)))
    ensures p < |toks| && ReadValue(toks, p) == ReadMembers(toks, p + 1, ps[..0])
    ensures At(toks, p + 1, MemberTokens(ps[0..]) + [EndObject])
    ensures |Tokens(JObject(ps))| == 2 + |MemberTokens(ps[0..])|
  {
    TokensShape(JObject(ps));
    AtSplit(toks, p, [StartObject], MemberTokens(ps) + [EndObject]);
    assert ps[..0] == [] && ps[0..] == ps;
  }

  /** An array's stream opens with its bracket, and its elements follow from the start. */
  lemma ArrayOpen(toks: seq<Token>, p: nat, xs: seq<Json>)
    requires At(toks, p, Tokens(JArray(xs)))
    ensures p < |toks| && ReadValue(toks, p) == ReadElements(toks, p + 1, xs[..0])
    ensures At(toks, p + 1, ElementTokens(xs[0..]) + [EndArray])
    ensures |Tokens(JArray(xs))| == 2 + |ElementTokens(xs[0..])|
  {
    TokensShape(JArray(xs));
    AtSplit(toks, p, [StartArray], ElementTokens(xs) + [EndArray]);
    assert xs[..0] == [] && xs[0..] == xs;
  }

  /** Where the `k`-th property of `ps` sits when the properties from `k` on are at `q`. */
  lemma MemberAt(toks: seq<Token>, q: nat, ps: seq<(string, Json)>, k: nat)
    requires k < |ps| && At(toks, q, MemberTokens(ps[k..]) + [EndObject])
    ensures q + 1 < |toks| && toks[q] == PropertyName(ps[k].0)
    ensures At(toks, q + 1, Tokens(ps[k].1))
    ensures At(toks, q + 1 + |Tokens(ps[k].1)|, MemberTokens(ps[k + 1..]) + [EndObject])
    ensures |MemberTokens(ps[k..])| == 1 + |Tokens(ps[k].1)| + |MemberTokens(ps[k + 1..])|
  {
    var rest := ps[k..];
    MemberTokensCons(rest);
    assert rest[0] == ps[k] && rest[1..] == ps[k + 1..];
    var name, v := ps[k].0, ps[k].1;
    var tv, tail := Tokens(v), MemberTokens(ps[k + 1..]) + [EndObject];
    assert MemberTokens(rest) + [EndObject] == [PropertyName(name)] + (tv + tail);
    AtSplit(toks, q, [PropertyName(name)], tv + tail);
    AtSplit(toks, q + 1, tv, tail);
    assert toks[q] == toks[q..q + 1][0];
  }

  /** Where the `k`-th element of `xs` sits when the elements from `k` on are at `q`. */
  lemma ElementAt(toks: seq<Token>, q: nat, xs: seq<Json>, k: nat)
    requires k < |xs| && At(toks, q, ElementTokens(xs[k..]) + [EndArray])
    ensures q < |toks| && toks[q] != EndArray
    ensures At(toks, q, Tokens(xs[k]))
    ensures At(toks, q + |Tokens(xs[k])|, ElementTokens(xs[k + 1..]) + [EndArray])
    ensures |ElementTokens(xs[k..])| == |Tokens(xs[k])| + |ElementTokens(xs[k + 1..])|
  {
    var rest := xs[k..];
    ElementTokensCons(rest);
    assert rest[0] == xs[k] && rest[1..] == xs[k + 1..];
    var tv, tail := Tokens(xs[k]), ElementTokens(xs[k + 1..]) + [EndArray];
    assert ElementTokens(rest) + [EndArray] == tv + tail;
    AtSplit(toks, q, tv, tail);
    assert toks[q] == tv[0];
  }

  /** In a strict object, the `k`-th property is strict and its name new to the ones before it. */
  lemma StrictMemberAt(j: Json, k: nat)
    requires j.JObject? && Strict(j) && k < |j.props|
    ensures var ps := j.props;
      && Strict(ps[k].1) && ps[k].0 !in Keys(ps[..k])
      && UniqueKeys(ps[..k]) && (forall i :: 0 <= i < |ps[..k]| ==> Strict(ps[..k][i].1))
      && UniqueKeys(ps[..k] + [(ps[k].0, ps[k].1)])
      && ps[..k] + [(ps[k].0, ps[k].1)] == ps[..k + 1]
  {
    var ps := j.props;
    assert ps[..k] + [ps[k]] == ps[..k + 1];
    forall i | 0 <= i < k ensures ps[..k][i].0 != ps[k].0 { assert ps[i].0 != ps[k].0; }
  }

  /** In a strict array, the `k`-th element and those before it are strict. */
  lemma StrictElementAt(j: Json, k: nat)
    requires j.JArray? && Strict(j) && k < |j.items|
    ensures var xs := j.items;
      && Strict(xs[k]) && (forall i :: 0 <= i < |xs[..k]| ==> Strict(xs[..k][i]))
      && xs[..k] + [xs[k]] == xs[..k + 1]
  {
    assert j.items[..k] + [j.items[k]] == j.items[..k + 1];
  }

  /** The `k`-th property repeats one of the names before it in `ps`. */
  lemma RepeatAt(ps: seq<(string, Json)>, k: nat)
    requires k < |ps| && ps[k].0 in Keys(ps[..k])
    ensures exists a, b :: 0 <= a < b < |ps| && ps[a].0 == ps[k].0 && ps[b].0 == ps[k].0
  {
    var a :| 0 <= a < k && Keys(ps[..k])[a] == ps[k].0;
    assert ps[a].0 == ps[k].0;
  }

  /** A strict object's properties, from the `k`-th on, are read back from their tokens. */
  lemma {:induction false} ReadMemberTokens(j: Json, k: nat, toks: seq<Token>, q: nat)
    requires j.JObject? && Strict(j) && k <= |j.props|
    requires At(toks, q, MemberTokens(j.props[k..]) + [EndObject])
    ensures ReadMembers(toks, q, j.props[..k]) == Result.Success((j, q + |MemberTokens(j.props[k..])|))
    decreases j, 0, |j.props| - k
  {
    var ps := j.props;
    if k == |ps| {
      assert ps[..k] == ps;
      assert toks[q] == EndObject;
    } else {
      StrictMemberAt(j, k);
      var next := MemberRead(j, k, toks, q);
      ReadMemberTokens(j, k + 1, toks, next);
    }
  }

  /** A strict property with a new name, read at `q`: the rebuild goes on after it, at `next`. */
  lemma {:induction false} MemberRead(j: Json, k: nat, toks: seq<Token>, q: nat) returns (next: nat)
    requires j.JObject? && k < |j.props| && Strict(j.props[k].1) && j.props[k].0 !in Keys(j.props[..k])
    requires At(toks, q, MemberTokens(j.props[k..]) + [EndObject])
    ensures At(toks, next, MemberTokens(j.props[k + 1..]) + [EndObject])
    ensures ReadMembers(toks, q, j.props[..k]) == ReadMembers(toks, next, j.props[..k + 1])
    ensures next + |MemberTokens(j.props[k + 1..])| == q + |MemberTokens(j.props[k..])|
    decreases j, 0, |j.props| - k, 0
  {
    var ps := j.props;
    MemberAt(toks, q, ps, k);
    var name, v, acc := ps[k].0, ps[k].1, ps[..k];
    var e := q + |Tokens(v)|;
    ReadTokens(v, toks, q + 1);
    assert ReadValue(toks, q + 1) == Result.Success((v, e));
    assert acc + [(name, v)] == ps[..k + 1];
    MembersStep(toks, q, acc, name, v, e);
    next := e + 1;
  }

  /** A strict array's elements, from the `k`-th on, are read back from their tokens. */
  lemma {:induction false} ReadElementTokens(j: Json, k: nat, toks: seq<Token>, q: nat)
    requires j.JArray? && Strict(j) && k <= |j.items|
    requires At(toks, q, ElementTokens(j.items[k..]) + [EndArray])
    ensures ReadElements(toks, q, j.items[..k]) == Result.Success((j, q + |ElementTokens(j.items[k..])|))
    decreases j, 0, |j.items| - k
  {
    var xs := j.items;
    if k == |xs| {
      assert xs[..k] == xs;
      assert toks[q] == EndArray;
    } else {
      StrictElementAt(j, k);
      var next := ElementRead(j, k, toks, q);
      ReadElementTokens(j, k + 1, toks, next);
    }
  }

  /** A strict element read at `q`: the rebuild goes on after it, at `next`. */
  lemma {:induction false} ElementRead(j: Json, k: nat, toks: seq<Token>, q: nat) returns (next: nat)
    requires j.JArray? && k < |j.items| && Strict(j.items[k])
    requires At(toks, q, ElementTokens(j.items[k..]) + [EndArray])
    ensures At(toks, next, ElementTokens(j.items[k + 1..]) + [EndArray])
    ensures ReadElements(toks, q, j.items[..k]) == ReadElements(toks, next, j.items[..k + 1])
    ensures next + |ElementTokens(j.items[k + 1..])| == q + |ElementTokens(j.items[k..])|
    decreases j, 0, |j.items| - k, 0
  {
    var xs := j.items;
    ElementAt(toks, q, xs, k);
    var v := xs[k];
    var e := q + |Tokens(v)| - 1;
    ReadTokens(v, toks, q);
    assert xs[..k] + [v] == xs[..k + 1];
    ElementsStep(toks, q, xs[..k], v, e);
    next := e + 1;
  }

  /** The rebuild failed on a repeated name, and that name really is repeated inside `j`. */
  predicate RefusedFor(r: Result<(Json, nat), DecodeError>, j: Json) {
    r.Failure? && r.error.DuplicateKey? && RepeatsKey(j, r.error.key)
  }

  /**
   * A value with a repeated name inside is refused, and the name the refusal reports is one
   * that really is repeated there.
   */
  lemma {:induction false} RejectTokens(j: Json, toks: seq<Token>, p: nat)
    requires !Strict(j) && At(toks, p, Tokens(j))
    ensures RefusedFor(ReadValue(toks, p), j)
    decreases j, 1, 0
  {
    match j
    case JObject(ps) =>
      ObjectOpen(toks, p, ps);
      RejectMemberTokens(j, 0, toks, p + 1);
    case JArray(xs) =>
      ArrayOpen(toks, p, xs);
      RejectElementTokens(j, 0, toks, p + 1);
  }

  /**
   * An object that is not strict, read from its `k`-th property on with the properties
   * before it distinct and strict, is refused naming a name repeated inside it.
   */
  lemma {:induction false} RejectMemberTokens(j: Json, k: nat, toks: seq<Token>, q: nat)
    requires j.JObject? && !Strict(j) && k <= |j.props|
    requires UniqueKeys(j.props[..k]) && forall i :: 0 <= i < k ==> Strict(j.props[i].1)
    requires At(toks, q, MemberTokens(j.props[k..]) + [EndObject])
    ensures RefusedFor(ReadMembers(toks, q, j.props[..k]), j)
    decreases j, 0, |j.props| - k
  {
    var ps := j.props;
    if k == |ps| {
      AllMembersRead(j, k);
      assert false;
    }
    MemberAt(toks, q, ps, k);
    var name, v, acc := ps[k].0, ps[k].1, ps[..k];
    if !Strict(v) {
      MemberRejected(j, k, toks, q);
    } else {
      ReadTokens(v, toks, q + 1);
      if name in Keys(acc) {
        MembersRepeat(toks, q, acc, name, v, q + |Tokens(v)|);
        RepeatAt(ps, k);
      } else {
        RejectMemberStep(j, k, toks, q);
      }
    }
  }

  /** The `k`-th property's value is not strict: the object fails as that value does. */
  lemma {:induction false} MemberRejected(j: Json, k: nat, toks: seq<Token>, q: nat)
    requires j.JObject? && k < |j.props| && !Strict(j.props[k].1)
    requires UniqueKeys(j.props[..k]) && forall i :: 0 <= i < k ==> Strict(j.props[i].1)
    requires q + 1 < |toks| && toks[q].PropertyName? && At(toks, q + 1, Tokens(j.props[k].1))
    ensures RefusedFor(ReadMembers(toks, q, j.props[..k]), j)
    decreases j, 0, |j.props| - k, 0
  {
    var v := j.props[k].1;
    RejectTokens(v, toks, q + 1);
    MembersValueFails(toks, q, j.props[..k]);
    var key := ReadValue(toks, q + 1).error.key;
    assert RepeatsKey(j.props[k].1, key);
  }

  /** An object whose properties are all distinct and strict is strict. */
  lemma AllMembersRead(j: Json, k: nat)
    requires j.JObject? && k == |j.props|
    requires UniqueKeys(j.props[..k]) && forall i :: 0 <= i < k ==> Strict(j.props[i].1)
    ensures Strict(j)
  {
    assert j.props[..k] == j.props;
  }

  /** The recursive case of `RejectMemberTokens`: the `k`-th property is strict and new. */
  lemma {:induction false} RejectMemberStep(j: Json, k: nat, toks: seq<Token>, q: nat)
    requires j.JObject? && !Strict(j) && k < |j.props|
    requires UniqueKeys(j.props[..k]) && forall i :: 0 <= i < k ==> Strict(j.props[i].1)
    requires At(toks, q, MemberTokens(j.props[k..]) + [EndObject])
    requires Strict(j.props[k].1) && j.props[k].0 !in Keys(j.props[..k])
    ensures RefusedFor(ReadMembers(toks, q, j.props[..k]), j)
    decreases j, 0, |j.props| - k, 0
  {
    var ps := j.props;
    var name, v, acc := ps[k].0, ps[k].1, ps[..k];
    AddFreshKey(acc, name, v);
    assert acc + [(name, v)] == ps[..k + 1];
    var next := MemberRead(j, k, toks, q);
    RejectMemberTokens(j, k + 1, toks, next);
  }

  /**
   * An array that is not strict, read from its `k`-th element on with the elements before
   * it strict, is refused naming a name repeated inside it.
   */
  lemma {:induction false} RejectElementTokens(j: Json, k: nat, toks: seq<Token>, q: nat)
    requires j.JArray? && !Strict(j) && k <= |j.items|
    requires forall i :: 0 <= i < k ==> Strict(j.items[i])
    requires At(toks, q, ElementTokens(j.items[k..]) + [EndArray])
    ensures RefusedFor(ReadElements(toks, q, j.items[..k]), j)
    decreases j, 0, |j.items| - k
  {
    var xs := j.items;
    if k == |xs| {
      assert false;
    }
    ElementAt(toks, q, xs, k);
    if !Strict(xs[k]) {
      ElementRejected(j, k, toks, q);
    } else {
      RejectElementStep(j, k, toks, q);
    }
  }

  /** The recursive case of `RejectElementTokens`: the `k`-th element is strict. */
  lemma {:induction false} RejectElementStep(j: Json, k: nat, toks: seq<Token>, q: nat)
    requires j.JArray? && !Strict(j) && k < |j.items| && Strict(j.items[k])
    requires forall i :: 0 <= i < k ==> Strict(j.items[i])
    requires At(toks, q, ElementTokens(j.items[k..]) + [EndArray])
    ensures RefusedFor(ReadElements(toks, q, j.items[..k]), j)
    decreases j, 0, |j.items| - k, 0
  {
    var next := ElementRead(j, k, toks, q);
    RejectElementTokens(j, k + 1, toks, next);
  }

  /** The `k`-th element is not strict: the array fails as that element does. */
  lemma {:induction false} ElementRejected(j: Json, k: nat, toks: seq<Token>, q: nat)
    requires j.JArray? && k < |j.items| && !Strict(j.items[k])
    requires forall i :: 0 <= i < k ==> Strict(j.items[i])
    requires q < |toks| && toks[q] != EndArray && At(toks, q, Tokens(j.items[k]))
    ensures RefusedFor(ReadElements(toks, q, j.items[..k]), j)
    decreases j, 0, |j.items| - k, 0
  {
    var v := j.items[k];
    RejectTokens(v, toks, q);
    ElementsValueFails(toks, q, j.items[..k]);
    var key := ReadValue(toks, q).error.key;
    assert RepeatsKey(j.items[k], key);
  }

  /** A repeated name anywhere inside makes a value not strict. */
  lemma {:induction false} RepeatsKeyNotStrict(j: Json, k: string)
    requires RepeatsKey(j, k)
    ensures !Strict(j)
    decreases j
  {
    match j
    case JObject(ps) =>
      if !(exists a, b :: 0 <= a < b < |ps| && ps[a].0 == k && ps[b].0 == k) {
        var i :| 0 <= i < |ps| && RepeatsKey(ps[i].1, k);
        assert ps[i] in ps;
        RepeatsKeyNotStrict(ps[i].1, k);
      }
    case JArray(xs) =>
      var i :| 0 <= i < |xs| && RepeatsKey(xs[i], k);
      RepeatsKeyNotStrict(xs[i], k);
  }

  /**
   * The rebuild of a value's own token stream, followed by anything at all: it gives the
   * value back exactly when no object inside repeats a name, and otherwise fails naming a
   * repeated name. What follows the first value is never read.
   */
  lemma DeserializeTokens(j: Json, rest: seq<Token>)
    ensures var r := Deserialize(Tokens(j) + rest);
      && (Strict(j) <==> r.Success?)
      && (r.Success? ==> r.value == j)
      && (r.Failure? ==> r.error.DuplicateKey? && RepeatsKey(j, r.error.key))
  {
    var toks := Tokens(j) + rest;
    assert toks[0..|Tokens(j)|] == Tokens(j);
    if Strict(j) {
      ReadTokens(j, toks, 0);
    } else {
      RejectTokens(j, toks, 0);
    }
  }

  /** A value is strict exactly when no name repeats inside it. */
  lemma StrictIffNoRepeat(j: Json)
    ensures Strict(j) <==> forall k :: !RepeatsKey(j, k)
  {
    if Strict(j) {
      forall k ensures !RepeatsKey(j, k) {
        if RepeatsKey(j, k) { RepeatsKeyNotStrict(j, k); }
      }
    } else {
      DeserializeTokens(j, []);
      assert Tokens(j) + [] == Tokens(j);
      var r := Deserialize(Tokens(j));
      assert RepeatsKey(j, r.error.key);
    }
  }
}
