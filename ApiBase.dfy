/**
 * `ApiBase`: sending a request to a payment service and turning the reply into a result.
 * The network, `WebRequest.CreateHttp`, URL coding and the JSON text reader are outside the
 * model and come in as the `Runtime` value; the process-wide certificate callback of
 * `ServicePointManager` is an object with one flag.
 */
module Transport {
  import opened Wrappers
  import opened Text
  import opened ApiModes
  import opened AppErrors
  import opened JsonDecode
  import opened JsonReader
  import opened Requests
  import opened Utf8

  /** The request as it goes out: what `PostToAPI` sets on `HttpWebRequest`. */
  datatype HttpRequest = HttpRequest(
    url: string,
    httpMethod: string,
    timeout: Int32,                 // milliseconds
    contentType: Option<string>,
    contentLength: Option<int>,     // set only when a body is written
    body: Option<seq<Byte>>)

  /** What comes back: status, `StatusDescription`, the body text and the headers. */
  datatype HttpResponse = HttpResponse(status: int, description: string, body: string, headers: seq<(string, string)>)

  /** The code `PostToAPI` calls but does not define. */
  datatype Runtime = Runtime(
    urlEncode: string -> string,                             // HttpUtility.UrlEncode
    urlDecode: string -> string,                             // WebUtility.UrlDecode
    createHttp: string -> Option<Exception>,                 // WebRequest.CreateHttp refusing a URL
    send: HttpRequest -> Result<HttpResponse, Exception>,    // GetRequestStream / GetResponse
    lexer: string -> seq<Token>)                             // JsonTextReader over a text

  /**
   * The type argument `T`: `string`; a type `string` converts to by reference (`object`, or
   * an interface it implements, such as `IComparable` or `IEnumerable<char>`); or any other
   * type, which the JSON is converted to.
   */
  datatype Target = StringTarget | StringSupertype | DataTarget

  /** `APIResult<T>.Response`: the text itself, or the decoded JSON (before `ToObject<T>`). */
  datatype Content = Text(text: string) | Decoded(value: Json)

  /** `APIResult<T>`. */
  datatype ApiResult = ApiResult(response: Content, headers: seq<(string, string)>)

  const FormContentType := "application/x-www-form-urlencoded"
  const JsonContentType := "application/json"
  const XmlContentType := "text/xml; encoding='utf-8'"
  const TimeoutMessage := "連線逾時"
  const ConnectionErrorMessage := "連線錯誤"

  /** `ConnectTimeOut` of the base class, in seconds. */
  const DefaultConnectTimeOut: Int32 := 10

  /**
   * `GetResponseContent<T>`: JSON is kept as text for `string` and decoded, strictly, for any
   * other `T`; text, stream and XML replies are cast to `T`, which fails unless `T` is
   * `string` or a type `string` converts to by reference; any other mode is not supported.
   */
  function GetResponseContent(mode: ResponseMode, target: Target, response: string, lexer: string -> seq<Token>): (r: Result<Content, Exception>)
    ensures mode.Undefined? <==> r == Failure(Framework(NotSupportedException))
    ensures mode.ByJSON? && target == StringTarget ==> r == Result.Success(Text(response))
    ensures mode.ByJSON? && target != StringTarget ==>
      var d := Deserialize(lexer(response));
      && (r.Success? <==> d.Success?)
      && (r.Success? ==> r.value == Decoded(d.value) && Strict(d.value))
      && (r.Failure? ==> r == Failure(Raised(d).error))
    ensures (mode.ByText? || mode.ByStream? || mode.ByXML?) ==>
      && (r.Failure? <==> target == DataTarget)
      && (r.Failure? ==> r.error == Framework(InvalidCastException))
      && (r.Success? ==> r.value == Text(response))
    ensures r.Success? && r.value.Text? ==> r.value.text == response
  {
    match mode
    case ByJSON =>
      if target == StringTarget then Result.Success(Text(response))
      else
        var j :- Raised(Deserialize(lexer(response)));
        Result.Success(Decoded(j))
    case ByText => CastText(target, response)
    case ByStream => CastText(target, response)
    case ByXML => CastText(target, response)
    case Undefined(_) => Failure(Framework(NotSupportedException))
  }

  /** `(T)(Object)Response`. */
  function CastText(target: Target, response: string): Result<Content, Exception>
  {
    if target == DataTarget then Failure(Framework(InvalidCastException)) else Result.Success(Text(response))
  }

  /** The `WebExceptionStatus` values that mean the service could not be found or reached. */
  predicate NotFoundOrNotAllowed(s: WebExceptionStatus) {
    s in {NameResolutionFailure, ConnectFailure, ProxyNameResolutionFailure, TrustFailure,
          SecureChannelFailure, RequestProhibitedByProxy}
  }

  /** `OnSetException`: a `WebException` becomes an `AppException` by its status; anything else stays. */
  function OnSetException(ex: Exception): Exception
  {
    if ex.Framework? && ex.kind.WebException? then
      var s := ex.kind.status;
      if NotFoundOrNotAllowed(s) then App(FromCause(ConnectNotFoundOrNotAllowed, ex))
      else if s == Timeout then App(WithMessageAndCause(ConnectFail, Some(TimeoutMessage), Some(ex)))
      else App(FromCause(ConnectFail, ex))
    else ex
  }

  /** The target: `postURL` unless it is null or blank, then `ServiceUrl`. */
  function ResolveUrl(postUrl: Option<string>, serviceUrl: Option<string>): Option<string>
  {
    if IsNullOrWhiteSpace(postUrl) then serviceUrl else postUrl
  }

  /** `int` multiplication in C#: the product modulo 2^32, read as signed. */
  function Wrap32(x: int): Int32
  {
    ((x + 0x8000_0000) % 0x1_0000_0000 - 0x8000_0000) as Int32
  }

  /** `ConnectTimeOut * 1000`. */
  function TimeoutMs(seconds: Int32): Int32
  {
    Wrap32(seconds as int * 1000)
  }

  /** What the `HttpWebRequest.Timeout` setter accepts: a non-negative value, or -1 for none. */
  predicate AcceptedTimeout(ms: Int32) { ms >= 0 || ms == -1 }

  /** The content type: form-encoded for GET, by the request mode for POST (none for another mode). */
  function ContentTypeFor(verb: RequestMethodMode, mode: RequestMode): Option<string>
  {
    if verb == GET then Some(FormContentType)
    else match mode
      case ByURL => Some(FormContentType)
      case ByJSON => Some(JsonContentType)
      case ByXML => Some(XmlContentType)
      case Undefined(_) => None
  }

  /**
   * The request `PostToAPI` sends for `req`, the content being `ToString()` of it, or the
   * exception raised before anything is sent.
   */
  function RequestFor(req: Request, postUrl: Option<string>, serviceUrl: Option<string>, connectTimeOut: Int32, rt: Runtime): Result<HttpRequest, Exception>
  {
    var content :- ToString(req, rt.urlEncode);
    var base := ResolveUrl(postUrl, serviceUrl);
    if base.None? then Failure(Framework(NullReferenceException))
    else
      var url := if req.Method() == GET then base.value + "?" + content else base.value;
      if rt.createHttp(url).Some? then Failure(rt.createHttp(url).value)
      else
        var timeout := TimeoutMs(connectTimeOut);
        if !AcceptedTimeout(timeout) then Failure(Framework(ArgumentOutOfRangeException("value")))
        else if req.Method() == GET then
          Result.Success(HttpRequest(url, "GET", timeout, Some(FormContentType), None, None))
        else
          var text := if req.mode == ByURL then rt.urlDecode(content) else content;
          var data := Encode(text);
          Result.Success(HttpRequest(url, "POST", timeout, ContentTypeFor(POST, req.mode), Some(|data|), Some(data)))
  }

  /**
   * The reply as `PostToAPI` reads it: a status outside 200-299 reads the status description
   * as the content and then fails with "連線錯誤"; otherwise the body is the content and the
   * headers are copied.
   */
  function ReadResponse(response: HttpResponse, mode: ResponseMode, target: Target, lexer: string -> seq<Token>): Result<ApiResult, Exception>
  {
    if response.status < 200 || response.status >= 300 then
      var _ :- GetResponseContent(mode, target, response.description, lexer);
      Failure(Framework(GeneralException(ConnectionErrorMessage)))
    else
      var content :- GetResponseContent(mode, target, response.body, lexer);
      Result.Success(ApiResult(content, response.headers))
  }

  /** The outcome of `PostToAPI`: whatever was thrown inside goes through `OnSetException`. */
  function PostOutcome(req: Request, postUrl: Option<string>, serviceUrl: Option<string>, connectTimeOut: Int32, target: Target, rt: Runtime): Result<ApiResult, Exception>
  {
    var attempt :=
      var request :- RequestFor(req, postUrl, serviceUrl, connectTimeOut, rt);
      var response :- rt.send(request);
      ReadResponse(response, req.responseMode, target, rt.lexer);
    match attempt
    case Success(v) => Result.Success(v)
    case Failure(e) => Failure(OnSetException(e))
  }

  /** The URL the certificate bypass looks at, when `PostToAPI` gets that far. */
  function CheckedUrl(req: Request, postUrl: Option<string>, serviceUrl: Option<string>, rt: Runtime): Option<string>
  {
    if ToString(req, rt.urlEncode).Failure? then None else ResolveUrl(postUrl, serviceUrl)
  }

  /**
   * `OnSetException`: a non-web exception is passed on as it is; a `WebException` is wrapped
   * as the cause of an `AppException` whose code is `ConnectNotFoundOrNotAllowed` exactly for
   * the six not-found statuses, `ConnectFail` otherwise, a timeout adding "連線逾時".
   */
  lemma OnSetExceptionMapping(ex: Exception)
    ensures !(ex.Framework? && ex.kind.WebException?) ==> OnSetException(ex) == ex
    ensures ex.Framework? && ex.kind.WebException? ==>
      var s := ex.kind.status;
      var out := OnSetException(ex);
      && out.App? && out.app.innerException == Some(ex)
      && (out.app.GetResultCode() == ConnectNotFoundOrNotAllowed <==> NotFoundOrNotAllowed(s))
      && (out.app.GetResultCode() == ConnectFail <==> !NotFoundOrNotAllowed(s))
      && (s == Timeout ==> out.app.Message() == GetResultDesc(ConnectFail, Some(TimeoutMessage), Some(ex), true))
      && (s != Timeout && !NotFoundOrNotAllowed(s) ==>
            out.app.Message() == ConnectFail.Description() + "(FE" + ConnectFail.ToCodeFormat() + ")")
  {
    if ex.Framework? && ex.kind.WebException? {
      var s := ex.kind.status;
      assert s == Timeout ==> !NotFoundOrNotAllowed(s);
    }
  }

  /**
   * A GET request goes to the base URL, a `?`, and the rendered query; it is form-encoded,
   * carries no body, and has the timeout in milliseconds. The base URL is `postURL` unless
   * that is blank.
   */
  lemma GetRequestShape(req: Request, postUrl: Option<string>, serviceUrl: Option<string>, connectTimeOut: Int32, rt: Runtime)
    requires req.Method() == GET
    requires RequestFor(req, postUrl, serviceUrl, connectTimeOut, rt).Success?
    ensures var r := RequestFor(req, postUrl, serviceUrl, connectTimeOut, rt).value;
      var base := ResolveUrl(postUrl, serviceUrl);
      && base.Some? && ToQueryString(req, rt.urlEncode).Success?
      && r.url == base.value + "?" + ToQueryString(req, rt.urlEncode).value
      && (!IsNullOrWhiteSpace(postUrl) ==> StartsWith(r.url, postUrl.value))
      && r.httpMethod == "GET" && r.contentType == Some(FormContentType)
      && r.body.None? && r.contentLength.None?
      && r.timeout == TimeoutMs(connectTimeOut) && AcceptedTimeout(r.timeout)
  {
    var r := RequestFor(req, postUrl, serviceUrl, connectTimeOut, rt).value;
    var base := ResolveUrl(postUrl, serviceUrl);
    if !IsNullOrWhiteSpace(postUrl) {
      assert r.url[..|postUrl.value|] == postUrl.value;
    }
  }

  /**
   * A POST request carries the UTF-8 bytes of its content (URL-decoded first for the URL
   * mode) as its body, with `ContentLength` their count: between one and four bytes per
   * character, and the bytes decode back to the content. The content type follows the mode.
   */
  lemma PostRequestShape(req: Request, postUrl: Option<string>, serviceUrl: Option<string>, connectTimeOut: Int32, rt: Runtime)
    requires req.Method() == POST
    requires RequestFor(req, postUrl, serviceUrl, connectTimeOut, rt).Success?
    ensures var r := RequestFor(req, postUrl, serviceUrl, connectTimeOut, rt).value;
      var content := ToString(req, rt.urlEncode).value;
      var text := if req.mode == ByURL then rt.urlDecode(content) else content;
      && r.url == ResolveUrl(postUrl, serviceUrl).value
      && r.httpMethod == "POST"
      && r.contentType == ContentTypeFor(POST, req.mode)
      && r.body.Some? && Decode(r.body.value) == Some(text)
      && r.contentLength == Some(|r.body.value|)
      && |text| <= |r.body.value| <= 4 * |text|
  {
    var content := ToString(req, rt.urlEncode).value;
    var text := if req.mode == ByURL then rt.urlDecode(content) else content;
    DecodeEncode(text);
    EncodeLength(text);
  }

  /**
   * A reply whose status is outside 200-299 never gives a result: `PostToAPI` fails with
   * "連線錯誤", or with what reading the status description as content threw first.
   */
  lemma BadStatusFails(req: Request, postUrl: Option<string>, serviceUrl: Option<string>, connectTimeOut: Int32, target: Target, rt: Runtime)
    requires RequestFor(req, postUrl, serviceUrl, connectTimeOut, rt).Success?
    requires var s := rt.send(RequestFor(req, postUrl, serviceUrl, connectTimeOut, rt).value);
      s.Success? && (s.value.status < 200 || s.value.status >= 300)
    ensures var response := rt.send(RequestFor(req, postUrl, serviceUrl, connectTimeOut, rt).value).value;
      var c := GetResponseContent(req.responseMode, target, response.description, rt.lexer);
      var r := PostOutcome(req, postUrl, serviceUrl, connectTimeOut, target, rt);
      && r.Failure?
      && (c.Success? ==> r.error == Framework(GeneralException(ConnectionErrorMessage)))
      && (c.Failure? ==> r.error == c.error)
  {
    var response := rt.send(RequestFor(req, postUrl, serviceUrl, connectTimeOut, rt).value).value;
    ContentErrorsNotWeb(req.responseMode, target, response.description, rt.lexer);
  }

  /** Reading content throws nothing `OnSetException` would rewrite. */
  lemma ContentErrorsNotWeb(mode: ResponseMode, target: Target, response: string, lexer: string -> seq<Token>)
    ensures var c := GetResponseContent(mode, target, response, lexer);
      c.Failure? ==> OnSetException(c.error) == c.error
  {
    if mode == ResponseMode.ByJSON && target != StringTarget {
      var d := Deserialize(lexer(response));
      assert d.Failure? ==> Raised(d).error.Framework? && !Raised(d).error.kind.WebException?;
    }
  }

  /**
   * `PostToAPI` gives a result only for a reply with a status in 200-299; the result holds
   * the body read by the response mode and the reply's headers.
   */
  lemma SuccessShape(req: Request, postUrl: Option<string>, serviceUrl: Option<string>, connectTimeOut: Int32, target: Target, rt: Runtime)
    requires PostOutcome(req, postUrl, serviceUrl, connectTimeOut, target, rt).Success?
    ensures var request := RequestFor(req, postUrl, serviceUrl, connectTimeOut, rt);
      && request.Success? && rt.send(request.value).Success?
      && var response := rt.send(request.value).value;
      && 200 <= response.status < 300
      && var r := PostOutcome(req, postUrl, serviceUrl, connectTimeOut, target, rt).value;
      && r.headers == response.headers
      && GetResponseContent(req.responseMode, target, response.body, rt.lexer) == Result.Success(r.response)
  {
    var request := RequestFor(req, postUrl, serviceUrl, connectTimeOut, rt);
    assert request.Success?;
    var response := rt.send(request.value);
    assert response.Success?;
    assert ReadResponse(response.value, req.responseMode, target, rt.lexer).Success?;
  }

  /**
   * A JSON reply read into a data type goes through the duplicate-rejecting rebuild: on the
   * tokens of a value `j`, the content is `j` exactly when no object in `j` repeats a name,
   * and otherwise a `JsonException` names a repeated name.
   */
  lemma JsonReplyStrict(target: Target, response: string, lexer: string -> seq<Token>, j: Json, rest: seq<Token>)
    requires target != StringTarget && lexer(response) == Tokens(j) + rest
    ensures var c := GetResponseContent(ResponseMode.ByJSON, target, response, lexer);
      && (c.Success? <==> Strict(j))
      && (c.Success? ==> c.value == Decoded(j))
      && (c.Failure? ==> exists k :: RepeatsKey(j, k) && c.error == Framework(JsonException(DuplicateMessage(k))))
  {
    NonDuplicatesOfTokens(j, rest);
  }

  /**
   * The timeout: 10 s by default, i.e. 10000 ms; any `ConnectTimeOut` up to 2147483 s is
   * taken in milliseconds, and from 2147484 s on the product wraps to a negative value that
   * the `Timeout` setter refuses.
   */
  lemma TimeoutRange(seconds: Int32)
    ensures TimeoutMs(DefaultConnectTimeOut) == 10000
    ensures 0 <= seconds <= 2147483 ==> TimeoutMs(seconds) as int == seconds as int * 1000 && AcceptedTimeout(TimeoutMs(seconds))
    ensures !AcceptedTimeout(TimeoutMs(2147484))
  {
    assert TimeoutMs(2147484) as int == 2147484000 - 0x1_0000_0000;
  }

  /** `ServicePointManager.ServerCertificateValidationCallback`: set, or still null. */
  class ServicePointConfig {
    var certificateCallbackSet: bool

    constructor (installed: bool)
      ensures certificateCallbackSet == installed
    {
      certificateCallbackSet := installed;
    }

    /** Installs the accept-all callback for an `https` URL, unless a callback is already there. */
    method BypassCertificateFor(url: string)
      modifies this
      ensures certificateCallbackSet == (old(certificateCallbackSet) || StartsWith(url, "https"))
    {
      if StartsWith(url, "https") {
        if !certificateCallbackSet {
          certificateCallbackSet := true;
        }
      }
    }
  }

  /** A service client: `ServiceUrl` and the (overridable) `ConnectTimeOut`. */
  class ApiBase {
    var serviceUrl: Option<string>
    const connectTimeOut: Int32

    constructor (connectTimeOut: Int32)
      ensures serviceUrl.None? && this.connectTimeOut == connectTimeOut
    {
      serviceUrl := None;
      this.connectTimeOut := connectTimeOut;
    }

    /**
     * The part of `PostToAPI<T>` before the request goes out: renders the content, picks the
     * URL, installs the certificate bypass for an `https` URL, and fills in the request.
     */
    method PrepareRequest(req: Request, postUrl: Option<string>, spm: ServicePointConfig, rt: Runtime)
      returns (r: Result<HttpRequest, Exception>)
      modifies spm
      ensures r == RequestFor(req, postUrl, serviceUrl, connectTimeOut, rt)
      ensures var url := CheckedUrl(req, postUrl, serviceUrl, rt);
        spm.certificateCallbackSet == (old(spm.certificateCallbackSet) || (url.Some? && StartsWith(url.value, "https")))
    {
      var mode := req.mode;
      var rendered := ToString(req, rt.urlEncode);
      if rendered.Failure? {
        return Failure(rendered.error);
      }
      var requestContent := rendered.value;
      var requestUrl := ResolveUrl(postUrl, serviceUrl);
      if requestUrl.None? {
        return Failure(Framework(NullReferenceException));
      }
      spm.BypassCertificateFor(requestUrl.value);
      var url := requestUrl.value;
      if req.Method() == GET {
        url := url + "?" + requestContent;
        requestContent := url;
      }
      var refused := rt.createHttp(url);
      if refused.Some? {
        return Failure(refused.value);
      }
      var request := HttpRequest(url, req.Method().Name(), 0, None, None, None);
      var timeout := TimeoutMs(connectTimeOut);
      if !AcceptedTimeout(timeout) {
        return Failure(Framework(ArgumentOutOfRangeException("value")));
      }
      request := request.(timeout := timeout);
      if req.Method() == GET {
        request := request.(contentType := Some(FormContentType));
        requestContent := rt.urlDecode(requestContent);
      }
      if req.Method() == POST {
        match mode
        case ByURL =>
          request := request.(contentType := Some(FormContentType));
          requestContent := rt.urlDecode(requestContent);
        case ByJSON =>
          request := request.(contentType := Some(JsonContentType));
        case ByXML =>
          request := request.(contentType := Some(XmlContentType));
        case Undefined(_) =>
      }
      if req.Method() == POST {
        var data := Encode(requestContent);
        request := request.(contentLength := Some(|data|), body := Some(data));
      }
      return Result.Success(request);
    }

    /**
     * `PostToAPI<T>`: builds the request, sends it, reads the reply; anything thrown on the
     * way leaves through `OnSetException`.
     */
    method PostToApi(req: Request, postUrl: Option<string>, target: Target, spm: ServicePointConfig, rt: Runtime)
      returns (r: Result<ApiResult, Exception>)
      modifies spm
      ensures r == PostOutcome(req, postUrl, serviceUrl, connectTimeOut, target, rt)
      ensures var url := CheckedUrl(req, postUrl, serviceUrl, rt);
        spm.certificateCallbackSet == (old(spm.certificateCallbackSet) || (url.Some? && StartsWith(url.value, "https")))
    {
      var request := PrepareRequest(req, postUrl, spm, rt);
      if request.Failure? {
        return Failure(OnSetException(request.error));
      }
      var response := rt.send(request.value);
      if response.Failure? {
        return Failure(OnSetException(response.error));
      }
      var result := ReadResponse(response.value, req.responseMode, target, rt.lexer);
      if result.Failure? {
        return Failure(OnSetException(result.error));
      }
      return result;
    }
  }
}
