/**
 * Exceptions of the model and the application error `AppException`, whose description is
 * composed as  description [ "(0x" hex ")" ] [ ":" message ] [ "(FE" code ")" ].
 */
module AppErrors {
  import opened Wrappers
  import opened Text
  import opened ApiModes

  newtype Int32 = x: int | -0x8000_0000 <= x < 0x8000_0000

  /** The bits of a 32-bit value read as unsigned: what `{0:X}` prints for it. */
  function Bits(x: Int32): (n: nat)
    ensures n < 0x1_0000_0000
    ensures x >= 0 ==> n == x as int
  {
    if x < 0 then x as int + 0x1_0000_0000 else x as int
  }

  /** The reason a `WebException` reports (`System.Net.WebExceptionStatus`). */
  datatype WebExceptionStatus =
    | Success | NameResolutionFailure | ConnectFailure | ReceiveFailure | SendFailure
    | PipelineFailure | RequestCanceled | ProtocolError | ConnectionClosed | TrustFailure
    | SecureChannelFailure | ServerProtocolViolation | KeepAliveFailure | Pending | Timeout
    | ProxyNameResolutionFailure | UnknownError | MessageLengthLimitExceeded
    | CacheEntryNotFound | RequestProhibitedByCachePolicy | RequestProhibitedByProxy

  /**
   * The .NET exceptions the modelled code throws or receives, with the constructor argument
   * the code passes. `ArgumentNullException(string)` takes a parameter name, while
   * `ArgumentException(string)` takes a message.
   */
  datatype FrameworkKind =
    | WebException(status: WebExceptionStatus)
    | ArgumentNullException(paramName: string)
    | ArgumentException(message: string)
    | ArgumentOutOfRangeException(paramName: string)
    | NotSupportedException
    | NotImplementedException
    | IndexOutOfRangeException
    | KeyNotFoundException
    | InvalidCastException
    | NullReferenceException
    | JsonException(message: string)
    | JsonReaderException
    | GeneralException(message: string)
    | OtherException(typeName: string, hResult: Int32)

  /** An exception: an `AppException`, or any other exception. */
  datatype Exception = App(app: AppException) | Framework(kind: FrameworkKind)

  /**
   * `AppException`: `InnerResultCode`, the message handed to the base `Exception`, the wrapped
   * cause, `ResultCode`, `ResultDesc` and the settable `Additional`.
   */
  datatype AppException = AppException(
    innerResultCode: ResultCodeType,
    message: Option<string>,
    innerException: Option<Exception>,
    resultCode: string,
    resultDesc: Option<string>,
    additional: Option<string>)
  {
    /** `GetResultCode()`. */
    function GetResultCode(): ResultCodeType { innerResultCode }

    /** `Exception.Message`: the stored message, or the runtime's default text when it is null. */
    function Message(): string
    {
      if message.Some? then message.value
      else "Exception of type 'ApiHelper2.Models.AppException' was thrown."
    }
  }

  /** `Exception.HResult` as each exception type sets it by default. */
  function HResult(e: Exception): Int32
  {
    match e
    case App(_) => (0x8013_1500 - 0x1_0000_0000) as Int32
    case Framework(k) =>
      match k
      case WebException(_) => (0x8013_1509 - 0x1_0000_0000) as Int32
      case ArgumentNullException(_) => (0x8000_4003 - 0x1_0000_0000) as Int32
      case ArgumentException(_) => (0x8007_0057 - 0x1_0000_0000) as Int32
      case ArgumentOutOfRangeException(_) => (0x8013_1502 - 0x1_0000_0000) as Int32
      case NotSupportedException => (0x8013_1515 - 0x1_0000_0000) as Int32
      case NotImplementedException => (0x8000_4001 - 0x1_0000_0000) as Int32
      case IndexOutOfRangeException => (0x8013_1508 - 0x1_0000_0000) as Int32
      case KeyNotFoundException => (0x8013_1577 - 0x1_0000_0000) as Int32
      case InvalidCastException => (0x8000_4002 - 0x1_0000_0000) as Int32
      case NullReferenceException => (0x8000_4003 - 0x1_0000_0000) as Int32
      case JsonException(_) => (0x8013_1500 - 0x1_0000_0000) as Int32
      case JsonReaderException => (0x8013_1500 - 0x1_0000_0000) as Int32
      case GeneralException(_) => (0x8013_1500 - 0x1_0000_0000) as Int32
      case OtherException(_, h) => h
  }

  /**
   * The number shown for a cause of `gSystemFail`: the inner `AppException`'s code, or the
   * cause's `HResult` read as unsigned.
   */
  function CauseNumber(ex: Exception): (n: nat)
    ensures ex.App? ==> n == ex.app.innerResultCode.Value()
    ensures ex.Framework? ==> n == Bits(HResult(ex))
  {
    if ex.App? then ex.app.innerResultCode.Value() else Bits(HResult(ex))
  }

  /** The `(0x...)` tag: present exactly for `gSystemFail` with a cause, holding its number in hex. */
  function HexTag(code: ResultCodeType, ex: Option<Exception>): (r: string)
    ensures r != "" <==> code == GSystemFail && ex.Some?
    ensures r != "" ==>
      && |r| >= 4 && r[..3] == "(0x" && r[|r| - 1] == ')'
      && (forall i :: 3 <= i < |r| - 1 ==> IsUpperHexDigit(r[i]))
      && ParseBase(r[3..|r| - 1], 16) == CauseNumber(ex.value)
      && (r[3] == '0' ==> CauseNumber(ex.value) == 0 && r == "(0x0)")
  {
    if code == GSystemFail && ex.Some? then
      var digits := HexString(CauseNumber(ex.value));
      ParseHexString(CauseNumber(ex.value));
      var r := "(0x" + digits + ")";
      assert r[3..|r| - 1] == digits;
      r
    else ""
  }

  /** A cause that is itself a `gSystemFail` `AppException` shows its code 9999 as `(0x270F)`. */
  lemma AppCauseHexTag(app: AppException)
    requires app.innerResultCode == GSystemFail
    ensures HexTag(GSystemFail, Some(App(app))) == "(0x270F)"
  {
    assert HexString(9999) == "270F" by {
      assert HexString(39) == "27";
      assert HexString(624) == "270";
    }
  }

  /** Any other cause shows its HResult read as unsigned, `0x80004003` for `ArgumentNullException`. */
  lemma FrameworkCauseHexTag(paramName: string)
    ensures HexTag(GSystemFail, Some(Framework(ArgumentNullException(paramName)))) == "(0x80004003)"
  {
    assert CauseNumber(Framework(ArgumentNullException(paramName))) == 0x8000_4003;
    HexOfArgumentNull();
  }

  /** `{0:X}` of `ArgumentNullException`'s HResult. */
  lemma HexOfArgumentNull()
    ensures HexString(0x8000_4003) == "80004003"
  {
    var low := HexString(0x800_0400);
    assert low == "8000400" by {
      assert HexString(0x8_0004) == "80004";
    }
  }

  /** The `:<mesg>` tag: present exactly when `mesg` is not null or white space. */
  function MessageTag(mesg: Option<string>): (r: string)
    ensures r == "" <==> IsNullOrWhiteSpace(mesg)
    ensures r != "" ==> r == ":" + mesg.value
  {
    if IsNullOrWhiteSpace(mesg) then "" else ":" + mesg.value
  }

  /** The `(FE<code>)` tag: present exactly when `hasCode` holds, always eight characters then. */
  function CodeTag(code: ResultCodeType, hasCode: bool): (r: string)
    ensures hasCode ==> r == "(FE" + code.ToCodeFormat() + ")" && |r| == 8
    ensures !hasCode ==> r == ""
  {
    if hasCode then "(FE" + code.ToCodeFormat() + ")" else ""
  }

  /** How the four parts of a description can be told apart again by their first characters. */
  lemma DescriptionLayout(desc: string, hex: string, text: string, tail: string)
    requires hex == "" || (|hex| >= 3 && hex[..3] == "(0x")
    requires text == "" || text[0] == ':'
    requires tail == "" || (|tail| >= 2 && tail[0] == '(' && tail[1] == 'F')
    ensures var r := desc + hex + text + tail;
      && StartsWith(r, desc + hex)
      && (StartsWith(r[|desc + hex|..], ":") <==> text != "")
      && (text != "" ==> r[|desc + hex| + 1..] == text[1..] + tail)
      && (StartsWith(r[|desc|..], "(0x") <==> hex != "")
  {
    var r := desc + hex + text + tail;
    assert r[..|desc + hex|] == desc + hex;
    assert r[|desc|..] == hex + text + tail;
    assert r[|desc + hex|..] == text + tail;
    if text != "" {
      assert r[|desc + hex| + 1..] == text[1..] + tail;
    } else if tail != "" {
      assert (text + tail)[0] == '(';
    }
    if hex == "" && text + tail != "" {
      assert (hex + text + tail)[0] == (text + tail)[0];
      if text == "" { assert (hex + text + tail)[1] == 'F'; }
    }
  }

  /**
   * `GetResultDesc(code, mesg, ex, hasCode)`. The result reads, in order: the code's description;
   * the `(0x...)` tag exactly when the code is `gSystemFail` and there is a cause; `:` followed by
   * `mesg` verbatim exactly when `mesg` is not null or white space; `(FE<4 digits>)` exactly when
   * `hasCode` holds.
   */
  function GetResultDesc(code: ResultCodeType, mesg: Option<string>, ex: Option<Exception>, hasCode: bool): (r: string)
    ensures var head := code.Description() + HexTag(code, ex);
      && StartsWith(r, head)
      && (StartsWith(r[|head|..], ":") <==> !IsNullOrWhiteSpace(mesg))
      && (!IsNullOrWhiteSpace(mesg) ==> StartsWith(r[|head| + 1..], mesg.value))
      && (hasCode ==> EndsWith(r, "(FE" + code.ToCodeFormat() + ")"))
      && |r| == |head| + (if IsNullOrWhiteSpace(mesg) then 0 else 1 + |mesg.value|) + (if hasCode then 8 else 0)
    ensures StartsWith(r[|code.Description()|..], "(0x") <==> code == GSystemFail && ex.Some?
  {
    var desc, hex, text, tail := code.Description(), HexTag(code, ex), MessageTag(mesg), CodeTag(code, hasCode);
    AssembledLayout(desc, hex, text, tail, mesg, code.ToCodeFormat(), hasCode);
    desc + hex + text + tail
  }

  /** The layout of a description, stated over its four parts as plain strings. */
  lemma AssembledLayout(desc: string, hex: string, text: string, tail: string, mesg: Option<string>, fmt: string, hasCode: bool)
    requires hex == "" || (|hex| >= 3 && hex[..3] == "(0x")
    requires (text == "" <==> IsNullOrWhiteSpace(mesg)) && (text != "" ==> text == ":" + mesg.value)
    requires |fmt| == 4 && tail == if hasCode then "(FE" + fmt + ")" else ""
    ensures var r := desc + hex + text + tail;
      && StartsWith(r, desc + hex)
      && (StartsWith(r[|desc + hex|..], ":") <==> !IsNullOrWhiteSpace(mesg))
      && (!IsNullOrWhiteSpace(mesg) ==> StartsWith(r[|desc + hex| + 1..], mesg.value))
      && (hasCode ==> EndsWith(r, "(FE" + fmt + ")"))
      && |r| == |desc + hex| + (if IsNullOrWhiteSpace(mesg) then 0 else 1 + |mesg.value|) + (if hasCode then 8 else 0)
    ensures StartsWith((desc + hex + text + tail)[|desc|..], "(0x") <==> hex != ""
  {
    var r := desc + hex + text + tail;
    DescriptionLayout(desc, hex, text, tail);
    assert r[|r| - |tail|..] == tail;
  }

  /** The three-argument `GetResultDesc` (default arguments null): the form with the code tag. */
  function GetResultDescWithCode(code: ResultCodeType, mesg: Option<string>, ex: Option<Exception>): (r: string)
    ensures r == GetResultDesc(code, mesg, ex, true)
  {
    GetResultDesc(code, mesg, ex, true)
  }

  /**
   * `GetResultDescNotCode`: the description without the code tag. Appending
   * `(FE<code>)` gives the coded form, and the code can be read back from that tag.
   */
  function GetResultDescNotCode(code: ResultCodeType, mesg: Option<string>, ex: Option<Exception>): (r: string)
    ensures r == GetResultDesc(code, mesg, ex, false)
    ensures r + ("(FE" + code.ToCodeFormat() + ")") == GetResultDesc(code, mesg, ex, true)
    ensures var full := GetResultDesc(code, mesg, ex, true);
      |full| == |r| + 8 && ParseDecimal(full[|full| - 5..|full| - 1]) == code.Value()
  {
    var fmt := code.ToCodeFormat();
    var r := code.Description() + HexTag(code, ex) + MessageTag(mesg);
    assert GetResultDesc(code, mesg, ex, false) == r + "";
    assert GetResultDesc(code, mesg, ex, true) == r + ("(FE" + fmt + ")");
    CodeTagDigits(r, fmt);
    r
  }

  /** The four characters before the closing parenthesis of a trailing code tag are the code. */
  lemma CodeTagDigits(r: string, fmt: string)
    requires |fmt| == 4
    ensures var full := r + ("(FE" + fmt + ")"); full[|full| - 5..|full| - 1] == fmt
  {
    var t := "(FE" + fmt + ")";
    assert (r + t)[|r| + 3..|r| + 7] == t[3..7];
    assert t[3..7] == fmt;
  }

  /**
   * The main constructor `AppException(code, mesg, ex, isDirectOut)`. With `isDirectOut` the
   * message and `ResultDesc` are `mesg` verbatim; otherwise both are the coded description.
   * The code is recorded either way.
   */
  function NewAppException(code: ResultCodeType, mesg: Option<string>, ex: Option<Exception>, isDirectOut: bool): (e: AppException)
    ensures e.GetResultCode() == code && e.resultCode == code.ToCodeFormat()
    ensures e.innerException == ex && e.additional.None?
    ensures e.message == e.resultDesc
    ensures isDirectOut ==> e.resultDesc == mesg
    ensures !isDirectOut ==> e.resultDesc == Some(GetResultDesc(code, mesg, ex, true))
  {
    var desc := if isDirectOut then mesg else Some(GetResultDesc(code, mesg, ex, true));
    AppException(code, desc, ex, code.ToCodeFormat(), desc, None)
  }

  /** `AppException(code)`. */
  function FromCode(code: ResultCodeType): (e: AppException)
    ensures e.resultCode == code.ToCodeFormat() && e.additional.None? && e.resultDesc == e.message
    ensures e.Message() == code.Description() + "(FE" + code.ToCodeFormat() + ")"
    ensures e.GetResultCode() == code && e.innerException.None?
  {
    PlainDescription(code, None);
    NewAppException(code, None, None, false)
  }

  /** `AppException(code, ex)`. */
  function FromCause(code: ResultCodeType, ex: Exception): (e: AppException)
    ensures e.resultCode == code.ToCodeFormat() && e.additional.None? && e.resultDesc == e.message
    ensures e.Message() == GetResultDesc(code, None, Some(ex), true)
    ensures code != GSystemFail ==> e.Message() == code.Description() + "(FE" + code.ToCodeFormat() + ")"
    ensures e.GetResultCode() == code && e.innerException == Some(ex)
  {
    var e := NewAppException(code, None, Some(ex), false);
    if code != GSystemFail then PlainDescription(code, Some(ex)); e else e
  }

  /** Without a message and without a hexadecimal tag, the description is the code's text and its tag. */
  lemma PlainDescription(code: ResultCodeType, ex: Option<Exception>)
    requires code != GSystemFail || ex.None?
    ensures GetResultDesc(code, None, ex, true) == code.Description() + "(FE" + code.ToCodeFormat() + ")"
  {
    var desc, hex, text, tail := code.Description(), HexTag(code, ex), MessageTag(None), CodeTag(code, true);
    EmptyMiddle(desc, hex, text, tail, code.ToCodeFormat());
  }

  lemma EmptyMiddle(desc: string, hex: string, text: string, tail: string, fmt: string)
    requires hex == "" && text == "" && tail == "(FE" + fmt + ")"
    ensures desc + hex + text + tail == desc + "(FE" + fmt + ")"
  {
  }

  /** `AppException(code, mesg)`. */
  function WithMessage(code: ResultCodeType, mesg: Option<string>): (e: AppException)
    ensures e.resultCode == code.ToCodeFormat() && e.additional.None? && e.resultDesc == e.message
    ensures e.Message() == GetResultDesc(code, mesg, None, true)
    ensures e.GetResultCode() == code && e.innerException.None?
  {
    NewAppException(code, mesg, None, false)
  }

  /** `AppException(code, mesg, ex)`. */
  function WithMessageAndCause(code: ResultCodeType, mesg: Option<string>, ex: Option<Exception>): (e: AppException)
    ensures e.resultCode == code.ToCodeFormat() && e.additional.None? && e.resultDesc == e.message
    ensures e.Message() == GetResultDesc(code, mesg, ex, true)
    ensures e.GetResultCode() == code && e.innerException == ex
  {
    NewAppException(code, mesg, ex, false)
  }

  /** A blank message composes like no message, and outside `gSystemFail` the cause does not show. */
  lemma ResultDescIgnoresBlankAndCause(code: ResultCodeType, mesg: Option<string>, ex: Option<Exception>, hasCode: bool)
    ensures IsNullOrWhiteSpace(mesg) ==> GetResultDesc(code, mesg, ex, hasCode) == GetResultDesc(code, None, ex, hasCode)
    ensures code != GSystemFail ==> GetResultDesc(code, mesg, ex, hasCode) == GetResultDesc(code, mesg, None, hasCode)
  {
  }
}
