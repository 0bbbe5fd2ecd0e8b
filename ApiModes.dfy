/**
 * The enumerations of the API library and the result-code helpers `ToCodeFormat` and
 * `GetEnumDescription`.
 *
 * A C# enum is an `int` underneath: a cast can produce a value that names no member.
 * `RequestMode` and `ResponseMode` are switched on with a fall-through (an empty body,
 * `NotSupportedException`), so they carry an `Undefined(value)` case for such values.
 * The other enums are only ever used through their members and are modelled as closed.
 */
module ApiModes {
  import opened Wrappers
  import opened Text

  /** `int.ToString()`: decimal digits, with a leading '-' for a negative value. */
  function IntToString(i: int): (r: string)
    ensures |r| >= 1
    ensures i < 0 <==> r[0] == '-'
  {
    if i < 0 then "-" + NatToString(-i) else NatToString(i)
  }

  /** A field of an enum type as reflection sees it: its name and its `[Description]`, if any. */
  datatype EnumField = EnumField(name: string, description: Option<string>)

  /** `GetEnumDescription`: the `[Description]` text when the member has one, otherwise its name. */
  function GetEnumDescription(field: EnumField): (r: string)
    ensures field.description.Some? ==> r == field.description.value
    ensures field.description.None? ==> r == field.name
  {
    match field.description
    case Some(d) => d
    case None => field.name
  }

  /** How a request's parameters are sent. */
  datatype RequestMode = ByURL | ByJSON | ByXML | Undefined(value: int) {
    function Value(): int
    {
      match this
      case ByURL => 0
      case ByJSON => 1
      case ByXML => 2
      case Undefined(v) => v
    }

    /** `Undefined` is only meant for values that name no member. */
    predicate Canonical() { Undefined? ==> !(0 <= value < 3) }
  }

  /** `(RequestMode)i`. */
  function ToRequestMode(i: int): (m: RequestMode)
    ensures m.Canonical() && m.Value() == i
    ensures m.Undefined? <==> !(0 <= i < 3)
  {
    if i == 0 then ByURL else if i == 1 then RequestMode.ByJSON
    else if i == 2 then RequestMode.ByXML else RequestMode.Undefined(i)
  }

  /** The named members of `RequestMode`, in declaration order. */
  const RequestModeMembers: seq<RequestMode> := [ByURL, RequestMode.ByJSON, RequestMode.ByXML]

  /** Exactly three named members, numbered 0 to 2, and every canonical value round-trips. */
  lemma RequestModeEnumeration(m: RequestMode)
    requires m.Canonical()
    ensures |RequestModeMembers| == 3
    ensures forall i :: 0 <= i < 3 ==> RequestModeMembers[i].Value() == i
    ensures !m.Undefined? <==> m in RequestModeMembers
    ensures ToRequestMode(m.Value()) == m
  {
  }

  /** `GET` or `POST`. */
  datatype RequestMethodMode = GET | POST {
    function Name(): string
    {
      match this
      case GET => "GET"
      case POST => "POST"
    }
  }

  /** How a response body is interpreted. */
  datatype ResponseMode = ByStream | ByText | ByJSON | ByXML | Undefined(value: int) {
    function Value(): int
    {
      match this
      case ByStream => 0
      case ByText => 1
      case ByJSON => 2
      case ByXML => 3
      case Undefined(v) => v
    }

    predicate Canonical() { Undefined? ==> !(0 <= value < 4) }
  }

  /** `(ResponseMode)i`. */
  function ToResponseMode(i: int): (m: ResponseMode)
    ensures m.Canonical() && m.Value() == i
    ensures m.Undefined? <==> !(0 <= i < 4)
  {
    if i == 0 then ByStream else if i == 1 then ByText
    else if i == 2 then ResponseMode.ByJSON else if i == 3 then ResponseMode.ByXML
    else ResponseMode.Undefined(i)
  }

  const ResponseModeMembers: seq<ResponseMode> :=
    [ByStream, ByText, ResponseMode.ByJSON, ResponseMode.ByXML]

  lemma ResponseModeEnumeration(m: ResponseMode)
    requires m.Canonical()
    ensures |ResponseModeMembers| == 4
    ensures forall i :: 0 <= i < 4 ==> ResponseModeMembers[i].Value() == i
    ensures !m.Undefined? <==> m in ResponseModeMembers
    ensures ToResponseMode(m.Value()) == m
  {
  }

  /**
   * Signature algorithm of a request; carried by requests but used by no logic here.
   * `NoSign` is the source's `None = 0` (renamed so as not to clash with `Option.None`).
   */
  datatype SignTypes = NoSign | MD5 | SHA256 {
    function Value(): nat
      ensures this == NoSign <==> Value() == 0
    {
      match this
      case NoSign => 0
      case MD5 => 1
      case SHA256 => 2
    }
  }

  /** The result codes. Every member has a `[Description]`. */
  datatype ResultCodeType = GSuccess | GFailed | ConnectFail | ConnectNotFoundOrNotAllowed | GSystemFail {
    function Value(): (v: nat)
      ensures v < 10000
    {
      match this
      case GSuccess => 0
      case GFailed => 1
      case ConnectFail => 2000
      case ConnectNotFoundOrNotAllowed => 2001
      case GSystemFail => 9999
    }

    /** The member as reflection sees it. */
    function Field(): EnumField
    {
      match this
      case GSuccess => EnumField("gSuccess", Some("成功"))
      case GFailed => EnumField("gFailed", Some("失敗"))
      case ConnectFail => EnumField("ConnectFail", Some("連線失敗"))
      case ConnectNotFoundOrNotAllowed => EnumField("ConnectNotFoundOrNotAllowed", Some("連線功能不存在或不允許"))
      case GSystemFail => EnumField("gSystemFail", Some("未預期的系統錯誤"))
    }

    /** `code.GetEnumDescription()`. */
    function Description(): string
    {
      GetEnumDescription(Field())
    }

    /** `ToCodeFormat`: the code as exactly four decimal digits. */
    function ToCodeFormat(): (r: string)
      ensures |r| == 4
      ensures forall i :: 0 <= i < 4 ==> IsDecimalDigit(r[i])
      ensures ParseDecimal(r) == Value()
    {
      DigitCountBelow10000(Value());
      FormatCode(Value())
    }
  }

  /** The codes, numbered as declared. */
  const ResultCodes: seq<ResultCodeType> :=
    [GSuccess, GFailed, ConnectFail, ConnectNotFoundOrNotAllowed, GSystemFail]

  /**
   * `Convert.ToInt32(code).ToString().PadLeft(4, '0')` for any non-negative code: its decimal
   * digits, left-padded with '0' to four characters and never truncated.
   */
  function FormatCode(n: nat): (r: string)
    ensures |r| == if DigitCount(n) >= 4 then DigitCount(n) else 4
    ensures EndsWith(r, NatToString(n))
    ensures forall i :: 0 <= i < |r| ==> IsDecimalDigit(r[i])
    ensures ParseDecimal(r) == n
  {
    var digits := NatToString(n);
    NatToStringLength(n);
    var r := PadLeft(digits, 4, '0');
    ParseNatToString(n);
    ParseLeadingZeros(r[..|r| - |digits|], digits, 10);
    assert r == r[..|r| - |digits|] + digits;
    r
  }

  /** Different codes never share a code string. */
  lemma FormatCodeInjective(m: nat, n: nat)
    requires FormatCode(m) == FormatCode(n)
    ensures m == n
  {
  }

  lemma DigitCountBelow10000(n: nat)
    requires n < 10000
    ensures DigitCount(n) <= 4
  {
    if n < 10 {
    } else if n < 100 {
      assert DigitCount(n / 10) == 1;
    } else if n < 1000 {
      assert DigitCount(n / 10 / 10) == 1;
      assert DigitCount(n / 10) == 2;
    } else {
      assert DigitCount(n / 10 / 10 / 10) == 1;
      assert DigitCount(n / 10 / 10) == 2;
      assert DigitCount(n / 10) == 3;
    }
  }

  lemma NatToString4(n: nat, a: nat, b: nat, c: nat, d: nat)
    requires a < 10 && b < 10 && c < 10 && d < 10 && 0 < a
    requires n == a * 1000 + b * 100 + c * 10 + d
    ensures NatToString(n) == [DigitChar(a), DigitChar(b), DigitChar(c), DigitChar(d)]
  {
    assert n / 10 == a * 100 + b * 10 + c && n % 10 == d;
    assert n / 10 / 10 == a * 10 + b && n / 10 % 10 == c;
    assert n / 10 / 10 / 10 == a && n / 10 / 10 % 10 == b;
    assert NatToString(a) == [DigitChar(a)];
    assert NatToString(n / 10 / 10) == [DigitChar(a), DigitChar(b)];
    assert NatToString(n / 10) == [DigitChar(a), DigitChar(b), DigitChar(c)];
  }

  /** A one-digit code is padded with three zeros. */
  lemma OneDigitCode(n: nat)
    requires n < 10
    ensures FormatCode(n) == "000" + [DigitChar(n)]
  {
    assert NatToString(n) == [DigitChar(n)];
    assert Repeat('0', 3) == "000";
  }

  /** A four-digit code is its own digits. */
  lemma FourDigitCode(n: nat, a: nat, b: nat, c: nat, d: nat)
    requires a < 10 && b < 10 && c < 10 && d < 10 && 0 < a
    requires n == a * 1000 + b * 100 + c * 10 + d
    ensures FormatCode(n) == [DigitChar(a), DigitChar(b), DigitChar(c), DigitChar(d)]
  {
    NatToString4(n, a, b, c, d);
  }

  /** The code strings of the five codes. */
  lemma ResultCodeTexts()
    ensures GSuccess.ToCodeFormat() == "0000" && GFailed.ToCodeFormat() == "0001"
    ensures ConnectFail.ToCodeFormat() == "2000" && ConnectNotFoundOrNotAllowed.ToCodeFormat() == "2001"
    ensures GSystemFail.ToCodeFormat() == "9999"
  {
    OneDigitCode(0);
    OneDigitCode(1);
    FourDigitCode(2000, 2, 0, 0, 0);
    FourDigitCode(2001, 2, 0, 0, 1);
    FourDigitCode(9999, 9, 9, 9, 9);
  }

  /** The descriptions of the five codes. */
  lemma ResultCodeDescriptions()
    ensures GSuccess.Description() == "成功" && GFailed.Description() == "失敗"
    ensures ConnectFail.Description() == "連線失敗"
    ensures ConnectNotFoundOrNotAllowed.Description() == "連線功能不存在或不允許"
    ensures GSystemFail.Description() == "未預期的系統錯誤"
  {
  }

  /** The code with a given number, if there is one. */
  function FromValue(n: nat): (r: Option<ResultCodeType>)
    ensures r.Some? ==> r.value.Value() == n
  {
    if n == 0 then Some(GSuccess)
    else if n == 1 then Some(GFailed)
    else if n == 2000 then Some(ConnectFail)
    else if n == 2001 then Some(ConnectNotFoundOrNotAllowed)
    else if n == 9999 then Some(GSystemFail)
    else None
  }

  /** Every code is found again from its number. */
  lemma FromValueOfValue(a: ResultCodeType)
    ensures FromValue(a.Value()) == Some(a)
  {
  }

  /** The code values are the declared ones and pairwise distinct. */
  lemma ResultCodeValuesDistinct(a: ResultCodeType, b: ResultCodeType)
    ensures a.Value() == b.Value() ==> a == b
    ensures a.ToCodeFormat() == b.ToCodeFormat() ==> a == b
  {
    FromValueOfValue(a);
    FromValueOfValue(b);
    SameFormatSameValue(a, b);
  }

  lemma SameFormatSameValue(a: ResultCodeType, b: ResultCodeType)
    ensures a.ToCodeFormat() == b.ToCodeFormat() ==> a.Value() == b.Value()
  {
  }
}
