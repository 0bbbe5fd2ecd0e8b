/**
 * `RequestBase`: how a request object renders itself for sending. A concrete request type
 * supplies its modes, may override `Method` and `CreateRquestParams`, and its JSON and XML
 * serializations come from the serializer libraries, which are outside this model and enter
 * as data.
 */
module Requests {
  import opened Wrappers
  import opened Text
  import opened ApiModes
  import opened AppErrors
  import opened KeySort
  import opened RequestParameters

  /** What a derived request class fixes. */
  datatype Request = Request(
    mode: RequestMode,
    responseMode: ResponseMode,
    methodOverride: Option<RequestMethodMode>,   // an override of `Method`, if the class has one
    signType: SignTypes,
    createdParams: Option<Pairs>,                // what an override of `CreateRquestParams` returns
    json: string,                                // `ToJSON()`: the serializer's text for the object
    xml: string)                                 // `ToXML()`: the XML serializer's text
  {
    /** `Method`: POST unless the class overrides it. */
    function Method(): (m: RequestMethodMode)
      ensures methodOverride.None? ==> m == POST
      ensures methodOverride.Some? ==> m == methodOverride.value
    {
      if methodOverride.Some? then methodOverride.value else POST
    }
  }

  /** `CreateRquestParams()`: the base version only throws. */
  function CreateRquestParams(req: Request): (r: Result<Pairs, Exception>)
    ensures req.createdParams.None? <==> r == Failure(Framework(NotImplementedException))
    ensures req.createdParams.Some? ==> r == Result.Success(req.createdParams.value)
  {
    if req.createdParams.Some? then Result.Success(req.createdParams.value)
    else Failure(Framework(NotImplementedException))
  }

  /** `key=value`, each side passed through `enc`. */
  function Encoded(enc: string -> string, p: (string, string)): string {
    enc(p.0) + "=" + enc(p.1)
  }

  function Plain(p: (string, string)): string {
    p.0 + "=" + p.1
  }

  function EncodedPieces(enc: string -> string, ps: Pairs): (r: seq<string>)
    ensures |r| == |ps| && forall i :: 0 <= i < |ps| ==> r[i] == Encoded(enc, ps[i])
  {
    if ps == [] then [] else [Encoded(enc, ps[0])] + EncodedPieces(enc, ps[1..])
  }

  function PlainPieces(ps: Pairs): (r: seq<string>)
    ensures |r| == |ps| && forall i :: 0 <= i < |ps| ==> r[i] == Plain(ps[i])
  {
    if ps == [] then [] else [Plain(ps[0])] + PlainPieces(ps[1..])
  }

  /** The GET form: pairs by ascending name, name and value form-encoded, joined by `&`. */
  function GetQuery(enc: string -> string, ps: Pairs): string {
    Join("&", EncodedPieces(enc, SortByKey(ps)))
  }

  /** The other form: pairs in parameter-set order, unencoded, joined by a line feed. */
  function PostQuery(ps: Pairs): string {
    Join("\n", PlainPieces(ps))
  }

  /** `ToQueryString()`, with `HttpUtility.UrlEncode` as `enc`. */
  function ToQueryString(req: Request, enc: string -> string): (r: Result<string, Exception>)
    ensures req.createdParams.None? ==> r == Failure(Framework(NotImplementedException))
    ensures req.createdParams.Some? && req.Method() == GET ==> r == Result.Success(GetQuery(enc, req.createdParams.value))
    ensures req.createdParams.Some? && req.Method() == POST ==> r == Result.Success(PostQuery(req.createdParams.value))
  {
    var ps :- CreateRquestParams(req);
    if req.Method() == GET then Result.Success(GetQuery(enc, ps)) else Result.Success(PostQuery(ps))
  }

  /** A form encoder that never produces the two characters the query syntax reserves. */
  ghost predicate FormEncoder(enc: string -> string) {
    forall s :: '&' !in enc(s) && '=' !in enc(s)
  }

  /**
   * The GET query string reads back: it splits at `&` into one piece per parameter, in
   * ascending name order, and each piece splits at `=` into the encoded name and value.
   */
  lemma {:induction false} GetQueryReadsBack(enc: string -> string, ps: Pairs)
    requires FormEncoder(enc) && ps != []
    ensures var pieces := Split(GetQuery(enc, ps), '&');
      && |pieces| == |ps|
      && SortedByKey(SortByKey(ps))
      && forall i :: 0 <= i < |pieces| ==>
           Split(pieces[i], '=') == [enc(SortByKey(ps)[i].0), enc(SortByKey(ps)[i].1)]
  {
    var sorted := SortByKey(ps);
    var pieces := EncodedPieces(enc, sorted);
    forall i | 0 <= i < |pieces| ensures '&' !in pieces[i] {
      assert '&' !in enc(sorted[i].0) && '&' !in enc(sorted[i].1);
      assert pieces[i] == enc(sorted[i].0) + "=" + enc(sorted[i].1);
    }
    SplitJoin(pieces, '&');
    forall i | 0 <= i < |pieces| ensures Split(pieces[i], '=') == [enc(sorted[i].0), enc(sorted[i].1)] {
      var a, b := enc(sorted[i].0), enc(sorted[i].1);
      assert '=' !in a && '=' !in b;
      SplitAfterPiece(a, '=', b);
      SplitWithout(b, '=');
    }
  }

  /** A GET query of a non-empty set has exactly one `&` fewer than it has parameters. */
  lemma {:induction false} GetQuerySeparators(enc: string -> string, ps: Pairs)
    requires FormEncoder(enc)
    ensures Count(GetQuery(enc, ps), '&') == if ps == [] then 0 else |ps| - 1
  {
    var pieces := EncodedPieces(enc, SortByKey(ps));
    forall i | 0 <= i < |pieces| ensures '&' !in pieces[i] {
      var p := SortByKey(ps)[i];
      assert '&' !in enc(p.0) && '&' !in enc(p.1);
    }
    JoinCount(pieces, '&');
  }

  lemma {:induction false} JoinCount(parts: seq<string>, c: char)
    requires forall i :: 0 <= i < |parts| ==> c !in parts[i]
    ensures Count(Join([c], parts), c) == if parts == [] then 0 else |parts| - 1
  {
    if |parts| == 1 {
      CountAbsent(parts[0], c);
    } else if |parts| > 1 {
      JoinCount(parts[1..], c);
      CountAppend(parts[0] + [c], Join([c], parts[1..]), c);
      CountAppend(parts[0], [c], c);
      CountAbsent(parts[0], c);
      assert Count([c], c) == 1 by { assert [c][1..] == []; }
    }
  }

  lemma {:induction false} CountAbsent(s: string, c: char)
    requires c !in s
    ensures Count(s, c) == 0
  {
    if s != [] { CountAbsent(s[1..], c); }
  }

  lemma {:induction false} CountAppend(a: string, b: string, c: char)
    ensures Count(a + b, c) == Count(a, c) + Count(b, c)
  {
    if a == [] {
      assert a + b == b;
    } else {
      assert (a + b)[0] == a[0];
      assert (a + b)[1..] == a[1..] + b;
      CountAppend(a[1..], b, c);
    }
  }

  /**
   * The other query form reads back in parameter-set order when no name or value holds a
   * line feed: one line per parameter, `name=value`.
   */
  lemma PostQueryReadsBack(ps: Pairs)
    requires ps != []
    requires forall i :: 0 <= i < |ps| ==> '\n' !in ps[i].0 && '\n' !in ps[i].1
    ensures Split(PostQuery(ps), '\n') == PlainPieces(ps)
    ensures forall i :: 0 <= i < |ps| ==> PlainPieces(ps)[i] == ps[i].0 + "=" + ps[i].1
  {
    SplitJoin(PlainPieces(ps), '\n');
  }

  /** An empty parameter set renders as the empty string either way. */
  lemma EmptyQuery(enc: string -> string)
    ensures GetQuery(enc, []) == "" && PostQuery([]) == ""
  {
  }

  /** `ToString()`: GET always renders the URL form; otherwise the mode picks the renderer. */
  function ToString(req: Request, enc: string -> string): (r: Result<string, Exception>)
    ensures req.Method() == GET ==> r == ToQueryString(req, enc)
    ensures req.Method() == POST ==> match req.mode
      case ByURL => r == ToQueryString(req, enc)
      case ByJSON => r == Result.Success(req.json)
      case ByXML => r == Result.Success(req.xml)
      case Undefined(_) => r == Result.Success("")
  {
    var mode := if req.Method() == GET then ByURL else req.mode;
    match mode
    case ByURL => ToQueryString(req, enc)
    case ByJSON => Result.Success(req.json)
    case ByXML => Result.Success(req.xml)
    case Undefined(_) => Result.Success("")
  }

  /** `ToJSON(converter)`: a null converter is an argument error, otherwise its output. */
  function ToJSONWith(req: Request, converter: Option<Request -> string>): (r: Result<string, Exception>)
    ensures converter.None? <==> r == Failure(Framework(ArgumentNullException("converter")))
    ensures converter.Some? ==> r == Result.Success(converter.value(req))
  {
    if converter.None? then Failure(Framework(ArgumentNullException("converter")))
    else Result.Success(converter.value(req))
  }

  /** `ToXML(converter)`: the same guard as `ToJSON(converter)`. */
  function ToXMLWith(req: Request, converter: Option<Request -> string>): (r: Result<string, Exception>)
    ensures converter.None? <==> r == Failure(Framework(ArgumentNullException("converter")))
    ensures converter.Some? ==> r == Result.Success(converter.value(req))
  {
    if converter.None? then Failure(Framework(ArgumentNullException("converter")))
    else Result.Success(converter.value(req))
  }

  /** `ToFormData()`: form data is not supported. */
  function ToFormData(req: Request): (r: Result<string, Exception>)
    ensures r == Failure(Framework(NotSupportedException))
  {
    Failure(Framework(NotSupportedException))
  }
}
