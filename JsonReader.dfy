/**
 * `JsonUtil.DeserializeReader` and `JsonUtil.DeserializeNonDuplicates` as they run: a reader
 * object standing on one token at a time, and a recursive rebuild that advances it with
 * loops. Both are proved against the rebuild functions of `JsonDecode`.
 */
module JsonReader {
  import opened Wrappers
  import opened KeySort
  import opened AppErrors
  import opened JsonDecode

  /**
   * `JsonTextReader` over a token stream. `pos` is the token it stands on: -1 before the
   * first `Read` (token type `None`), `|toks|` once the input is used up (`None` again).
   */
  class TokenReader {
    const toks: seq<Token>
    var pos: int

    predicate Valid()
      reads this
    {
      -1 <= pos <= |toks|
    }

    constructor (toks: seq<Token>)
      ensures Valid() && this.toks == toks && pos == -1
    {
      this.toks := toks;
      pos := -1;
    }

    /** `TokenType`: the token stood on, `None` outside the stream. */
    function TokenType(): (t: Option<Token>)
      reads this
      requires Valid()
      ensures t.Some? <==> 0 <= pos < |toks|
      ensures t.Some? ==> t.value == toks[pos]
    {
      if 0 <= pos < |toks| then Some(toks[pos]) else None
    }

    /** `Read`: steps to the next token; `false` once there is none. */
    method Read() returns (more: bool)
      requires Valid()
      modifies this
      ensures Valid()
      ensures pos == if old(pos) < |toks| then old(pos) + 1 else old(pos)
      ensures more <==> pos < |toks|
    {
      if pos < |toks| {
        pos := pos + 1;
      }
      more := pos < |toks|;
    }
  }

  /**
   * What `DeserializeReader` gives for a reader standing at `pos`: the position before the
   * stream is skipped first; an empty stream gives a null value. On success, also the
   * position of the value's last token, where the reader is left.
   */
  function DecodeFrom(toks: seq<Token>, pos: int): (r: Result<(Json, nat), DecodeError>)
    requires pos == -1 || 0 <= pos < |toks|
    ensures r.Success? ==> Strict(r.value.0)
  {
    var start := if pos == -1 then 0 else pos;
    if start == |toks| then Result.Success((JValue(JNull), start))
    else
      ReadValueStrict(toks, start);
      ReadValue(toks, start)
  }

  /**
   * The rebuild. An object is read property by property into a fresh accumulator, and a
   * name already in it stops the rebuild; an array is read element by element; anything
   * else is a value of its own.
   */
  method DeserializeReader(reader: TokenReader) returns (r: Result<Json, DecodeError>)
    requires reader.Valid() && (reader.pos == -1 || reader.pos < |reader.toks|)
    modifies reader
    ensures reader.Valid()
    ensures var d := DecodeFrom(reader.toks, old(reader.pos));
      && (d.Success? ==> r == Result.Success(d.value.0) && reader.pos == d.value.1)
      && (d.Failure? ==> r == Failure(d.error))
    decreases |reader.toks| - reader.pos, 1
  {
    if reader.TokenType().None? {
      var _ := reader.Read();
    }
    var t := reader.TokenType();
    if t.None? {
      return Result.Success(JValue(JNull));
    }
    match t.value
    case StartObject => r := ReadObject(reader);
    case StartArray => r := ReadArray(reader);
    case Primitive(v) => r := Result.Success(JValue(v));
    case _ => r := Failure(Malformed);
  }

  /** The object branch of `DeserializeReader`, the reader standing on `StartObject`. */
  method ReadObject(reader: TokenReader) returns (r: Result<Json, DecodeError>)
    requires reader.Valid() && 0 <= reader.pos < |reader.toks|
    requires reader.toks[reader.pos] == StartObject
    modifies reader
    ensures reader.Valid()
    ensures var d := ReadValue(reader.toks, old(reader.pos));
      && (d.Success? ==> r == Result.Success(d.value.0) && reader.pos == d.value.1)
      && (d.Failure? ==> r == Failure(d.error))
    decreases |reader.toks| - reader.pos, 0
  {
    ghost var toks, p := reader.toks, reader.pos;
    var _ := reader.Read();
    var acc: seq<(string, Json)> := [];
    while reader.TokenType() != Some(EndObject)
      invariant reader.Valid() && p < reader.pos <= |toks|
      invariant ReadMembers(toks, reader.pos, acc) == ReadValue(toks, p)
      decreases |toks| - reader.pos
    {
      var tt := reader.TokenType();
      if tt.None? || !tt.value.PropertyName? {
        return Failure(Malformed);
      }
      ghost var q := reader.pos;
      var propName := tt.value.name;
      var more := reader.Read();
      if !more {
        return Failure(Malformed);
      }
      var newValue := DeserializeReader(reader);
      if newValue.Failure? {
        return newValue;
      }
      if propName in Keys(acc) {
        return Failure(DuplicateKey(propName));
      }
      MemberAccepted(toks, q, acc, propName, newValue.value, reader.pos);
      acc := acc + [(propName, newValue.value)];
      var _ := reader.Read();
    }
    return Result.Success(JObject(acc));
  }

  /** A property read by the object loop whose name is new: the loop goes on after its value. */
  lemma MemberAccepted(toks: seq<Token>, q: nat, acc: seq<(string, Json)>, name: string, v: Json, e: nat)
    requires q + 1 < |toks| && toks[q] == PropertyName(name)
    requires DecodeFrom(toks, q + 1) == Result.Success((v, e))
    requires name !in Keys(acc)
    ensures ReadMembers(toks, q, acc) == ReadMembers(toks, e + 1, acc + [(name, v)])
  {
    MembersStep(toks, q, acc, name, v, e);
  }

  /** The array branch of `DeserializeReader`, the reader standing on `StartArray`. */
  method ReadArray(reader: TokenReader) returns (r: Result<Json, DecodeError>)
    requires reader.Valid() && 0 <= reader.pos < |reader.toks|
    requires reader.toks[reader.pos] == StartArray
    modifies reader
    ensures reader.Valid()
    ensures var d := ReadValue(reader.toks, old(reader.pos));
      && (d.Success? ==> r == Result.Success(d.value.0) && reader.pos == d.value.1)
      && (d.Failure? ==> r == Failure(d.error))
    decreases |reader.toks| - reader.pos, 0
  {
    ghost var toks, p := reader.toks, reader.pos;
    var _ := reader.Read();
    var items: seq<Json> := [];
    while reader.TokenType() != Some(EndArray)
      invariant reader.Valid() && p < reader.pos <= |toks|
      invariant ReadElements(toks, reader.pos, items) == ReadValue(toks, p)
      decreases |toks| - reader.pos
    {
      if reader.TokenType().None? {
        return Failure(Malformed);
      }
      ghost var q := reader.pos;
      var element := DeserializeReader(reader);
      if element.Failure? {
        return element;
      }
      ElementsStep(toks, q, items, element.value, reader.pos);
      items := items + [element.value];
      var _ := reader.Read();
    }
    return Result.Success(JArray(items));
  }

  /**
   * The exception a failed rebuild surfaces as: a `JsonException` naming the repeated
   * property, or the `JsonReaderException` of a stream the reader refuses.
   */
  function Raised(d: Result<Json, DecodeError>): (r: Result<Json, Exception>)
    ensures d.Success? <==> r.Success?
    ensures d.Success? ==> r.value == d.value
    ensures d.Failure? && d.error.DuplicateKey? ==>
      r == Failure(Framework(JsonException(DuplicateMessage(d.error.key))))
    ensures d.Failure? && d.error.Malformed? ==> r == Failure(Framework(JsonReaderException))
  {
    match d
    case Success(j) => Result.Success(j)
    case Failure(DuplicateKey(k)) => Failure(Framework(JsonException(DuplicateMessage(k))))
    case Failure(Malformed) => Failure(Framework(JsonReaderException))
  }

  /** `DeserializeNonDuplicates` up to the conversion to the target type. */
  method DeserializeNonDuplicates(toks: seq<Token>) returns (r: Result<Json, Exception>)
    ensures r == Raised(Deserialize(toks))
  {
    var reader := new TokenReader(toks);
    var d := DeserializeReader(reader);
    r := Raised(d);
  }

  /**
   * On the token stream of a value `j` (followed by anything), the rebuild gives `j` back
   * exactly when no object inside `j` repeats a name; otherwise it raises a `JsonException`
   * whose message names a repeated name.
   */
  lemma NonDuplicatesOfTokens(j: Json, rest: seq<Token>)
    ensures var r := Raised(Deserialize(Tokens(j) + rest));
      && (r.Success? <==> Strict(j))
      && (r.Success? ==> r.value == j)
      && (r.Failure? ==> exists k ::
            RepeatsKey(j, k) && r.error == Framework(JsonException(DuplicateMessage(k))))
  {
    DeserializeTokens(j, rest);
    var d := Deserialize(Tokens(j) + rest);
    if d.Failure? {
      assert RepeatsKey(j, d.error.key);
    }
  }

  /** `{"a":1,"a":2}` is refused, the message naming `a`. */
  lemma RepeatedNameRefused()
    ensures Raised(Deserialize([StartObject, PropertyName("a"), Primitive(JInteger(1)),
      PropertyName("a"), Primitive(JInteger(2)), EndObject]))
      == Failure(Framework(JsonException(DuplicateMessage("a"))))
  {
    var toks := [StartObject, PropertyName("a"), Primitive(JInteger(1)),
      PropertyName("a"), Primitive(JInteger(2)), EndObject];
    assert ReadMembers(toks, 3, [("a", JValue(JInteger(1)))]) == Failure(DuplicateKey("a"));
  }

  /**
   * The same name in two sibling objects, and in an object nested inside another with that
   * name, is accepted: `{"a":{"b":1},"c":{"b":2,"a":3}}` is rebuilt as it was written.
   */
  lemma NameReuseAcrossObjectsAccepted()
    ensures var j := JObject([
        ("a", JObject([("b", JValue(JInteger(1)))])),
        ("c", JObject([("b", JValue(JInteger(2))), ("a", JValue(JInteger(3)))]))]);
      Raised(Deserialize(Tokens(j))) == Result.Success(j)
  {
    var j := JObject([
        ("a", JObject([("b", JValue(JInteger(1)))])),
        ("c", JObject([("b", JValue(JInteger(2))), ("a", JValue(JInteger(3)))]))]);
    var inner1 := JObject([("b", JValue(JInteger(1)))]);
    var inner2 := JObject([("b", JValue(JInteger(2))), ("a", JValue(JInteger(3)))]);
    assert Strict(inner1) && Strict(inner2);
    assert Strict(j) by {
      assert UniqueKeys(j.props);
      forall i | 0 <= i < |j.props| ensures Strict(j.props[i].1) {
        assert j.props[i].1 == inner1 || j.props[i].1 == inner2;
      }
    }
    NonDuplicatesOfTokens(j, []);
    assert Tokens(j) + [] == Tokens(j);
  }

  /*
   * `DeserializeReader` as written never looks at what `Read` returns. The members below
   * follow its loops on a reader that has run past the end of a truncated stream, where
   * `TokenType` is `None` and `Value` is null.
   */

  /** The token a reader at `pos` stands on, as `TokenReader.TokenType` reports it. */
  function TokenAt(toks: seq<Token>, pos: int): (t: Option<Token>)
    ensures t.Some? <==> 0 <= pos < |toks|
    ensures t.Some? ==> t.value == toks[pos]
  {
    if 0 <= pos < |toks| then Some(toks[pos]) else None
  }

  /** `(string)reader.Value` on a reader at `pos`: the name it stands on, or null. */
  function NameAt(toks: seq<Token>, pos: int): Option<string>
  {
    if 0 <= pos < |toks| && toks[pos].PropertyName? then Some(toks[pos].name) else None
  }

  /** `reader.Value` as a scalar: the value of the primitive stood on, null anywhere else. */
  function ValueAt(toks: seq<Token>, pos: int): Scalar
  {
    if 0 <= pos < |toks| && toks[pos].Primitive? then toks[pos].v else JNull
  }

  /** The position after `TokenReader.Read`: one step on, or the end again. */
  function NextPos(toks: seq<Token>, pos: int): int
    requires -1 <= pos <= |toks|
  {
    if pos < |toks| then pos + 1 else pos
  }

  /**
   * `DeserializeReader` as written, called on a reader past the end, with the position it
   * leaves: `TokenType` is `None`, so it reads (and stays); the token is still not a start
   * token, so it returns `new JValue(reader.Value)`, and `Value` is null there.
   */
  function DeserializeReaderPastEnd(toks: seq<Token>, pos: int): (r: (Json, int))
    requires pos == |toks|
    ensures r == (JValue(JNull), |toks|)
  {
    var p := if TokenAt(toks, pos).None? then NextPos(toks, pos) else pos;
    (JValue(ValueAt(toks, p)), p)
  }

  /**
   * `n` rounds of the array loop as written, from a reader past the end: each round adds
   * what the nested `DeserializeReader` returns there, then the loop reads again (and stays).
   */
  function ArrayRoundsAsWritten(toks: seq<Token>, pos: int, items: seq<Json>, n: nat): (int, seq<Json>)
    requires pos == |toks|
    decreases n
  {
    if n == 0 then (pos, items)
    else
      var (element, p1) := DeserializeReaderPastEnd(toks, pos);
      var p2 := NextPos(toks, p1);
      ArrayRoundsAsWritten(toks, p2, items + [element], n - 1)
  }

  /**
   * Past the end, the array loop as written makes no progress: after any number of rounds
   * the reader has not moved, the loop's test `TokenType != EndArray` still holds, and one
   * more null element has been added each round. The loop never ends.
   */
  lemma {:induction false} ArrayLoopAsWrittenStuck(toks: seq<Token>, items: seq<Json>, n: nat)
    ensures var (p, xs) := ArrayRoundsAsWritten(toks, |toks|, items, n);
      && p == |toks| && TokenAt(toks, p) != Some(EndArray)
      && |xs| == |items| + n && xs[..|items|] == items
      && forall k :: |items| <= k < |xs| ==> xs[k] == JValue(JNull)
    decreases n
  {
    if n > 0 {
      var items' := items + [JValue(JNull)];
      ArrayLoopAsWrittenStuck(toks, items', n - 1);
      var (p, xs) := ArrayRoundsAsWritten(toks, |toks|, items', n - 1);
      assert ArrayRoundsAsWritten(toks, |toks|, items, n) == (p, xs);
      assert xs[..|items|] == xs[..|items'|][..|items|];
    }
  }

  /**
   * `[1`: after its one element the array loop reads to the end of the stream, and from
   * there it goes round for ever, adding null after null.
   */
  lemma TruncatedArrayAsWritten(n: nat)
    ensures var toks := [StartArray, Primitive(JInteger(1))];
      && NextPos(toks, 1) == |toks|
      && var (p, xs) := ArrayRoundsAsWritten(toks, |toks|, [JValue(JInteger(1))], n);
        TokenAt(toks, p) != Some(EndArray) && |xs| == n + 1
  {
    ArrayLoopAsWrittenStuck([StartArray, Primitive(JInteger(1))], [JValue(JInteger(1))], n);
  }

  /**
   * One round of the object loop as written, from a reader past the end: the name read
   * from `Value` is null, the `Read` after it stays at the end, the nested `DeserializeReader`
   * gives its value there, and the lookup `obj[propName]` refuses the null name.
   */
  function ObjectRoundAsWritten(toks: seq<Token>, pos: int, acc: seq<(string, Json)>): Result<seq<(string, Json)>, Exception>
    requires pos == |toks|
  {
    var propName := NameAt(toks, pos);
    var p1 := NextPos(toks, pos);
    var (newValue, _) := DeserializeReaderPastEnd(toks, p1);
    match propName
    case None => Failure(Framework(ArgumentNullException("propertyName")))
    case Some(name) => Result.Success(acc + [(name, newValue)])
  }

  /**
   * `{"a":1`: after its one property the object loop reads to the end of the stream, where
   * the next round fails with `ArgumentNullException` instead of a reader error.
   */
  lemma TruncatedObjectAsWritten()
    ensures var toks := [StartObject, PropertyName("a"), Primitive(JInteger(1))];
      && NextPos(toks, 2) == |toks| && TokenAt(toks, |toks|) != Some(EndObject)
      && ObjectRoundAsWritten(toks, |toks|, [("a", JValue(JInteger(1)))])
        == Failure(Framework(ArgumentNullException("propertyName")))
  {
  }

  /** The model's rebuild refuses `[1` as a malformed stream, raised as `JsonReaderException`. */
  lemma TruncatedArrayRefused()
    ensures Raised(Deserialize([StartArray, Primitive(JInteger(1))])) == Failure(Framework(JsonReaderException))
  {
    var toks := [StartArray, Primitive(JInteger(1))];
    assert ReadElements(toks, 2, [JValue(JInteger(1))]) == Failure(Malformed);
    assert ReadElements(toks, 1, []) == Failure(Malformed);
  }

  /** The model's rebuild refuses `{"a":1` as a malformed stream, raised as `JsonReaderException`. */
  lemma TruncatedObjectRefused()
    ensures Raised(Deserialize([StartObject, PropertyName("a"), Primitive(JInteger(1))]))
      == Failure(Framework(JsonReaderException))
  {
    var toks := [StartObject, PropertyName("a"), Primitive(JInteger(1))];
    assert ReadMembers(toks, 3, [("a", JValue(JInteger(1)))]) == Failure(Malformed);
    assert ReadMembers(toks, 1, []) == Failure(Malformed);
  }
}
