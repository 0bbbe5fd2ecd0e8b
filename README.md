# ApiHelper2 core, modelled in Dafny

This project models the core of the `ApiTools/ApiHelper2` library. The library is a .NET helper for
calling HTTP APIs of payment services. It covers:

- the enumerations that describe a request (mode, verb, response mode, signing, result codes) and the
  four-digit result code format;
- `AppException`, whose message is assembled from a result code, an optional message and the
  exception that caused it;
- `RquestParams`, an ordered set of named request parameters that refuses a null name, a repeated
  name or a missing value;
- `RequestBase`, which renders a request as a URL query (GET), a line-separated list or a converter's
  JSON/XML (POST);
- `JsonUtil`:
  - the strict JSON reader that refuses a repeated property name inside one object;
  - `Sort`;
  - the CSV-to-JSON conversion;
  - the dictionary helpers (`JsonGet`, `JsonGetArray`, `IsValidJson`, `DeserializeToDictionary`,
    `SerializeFromDictionary`);
- `ApiBase.PostToAPI`: building the HTTP request (URL, method, time-out, content type, UTF-8 body),
  reading the response, and mapping transport errors to `AppException`s.

C# `null` is `Option.None`. A thrown exception is the `Failure` of a `Result`, whose error is an
`AppErrors.Exception`. That is either an `App(AppException)` or a `Framework(kind)`, where
`kind` carries the .NET exception type and its arguments. Library code the core calls is passed in as
function-valued parameters: `HttpUtility`, Newtonsoft serialization and parsing, `HttpWebRequest`, and
the JSON text lexer. The model fixes what the core does around those calls, and nothing about the
library itself.

Modules:

- `Wrappers`, `Text`: Option/Result, and the string helpers used throughout.
- `ApiModes`: `Models/ApiModes.cs`.
- `AppErrors`: `Models/AppException.cs`, with the .NET exception kinds.
- `RequestParameters`: `RquestParams.cs`, as a class whose `items` sequence the methods update.
- `Requests`: `Models/RequestBase.cs`.
- `KeySort`: the stable ordinal sort by key that `OrderBy` performs.
- `JsonDecode`, `JsonReader`: the duplicate-refusing reader of `JsonUtil.cs`. `JsonDecode` is the
  pure specification. `JsonReader` is the imperative reader over a token cursor.
- `JsonSort`, `Csv`, `JsonDictionary`: the other parts of `JsonUtil.cs`.
- `Utf8`: `Encoding.UTF8.GetBytes`, and the decoding that undoes it.
- `Transport`: `ApiBase.cs`.

## Model

| member | source | states |
|---|---|---|
| ApiModes.GetEnumDescription | ApiTools/ApiHelper2/Models/ApiModes.cs:96-110 | the `Description` attribute's text when there is one, otherwise the member's name |
| ApiModes.ToRequestMode | ApiTools/ApiHelper2/Models/ApiModes.cs:10-15 | any integer is a `RequestMode` carrying that value; it is a named member exactly for 0..2 |
| ApiModes.RequestModeEnumeration | ApiTools/ApiHelper2/Models/ApiModes.cs:10-15 | ByURL, ByJSON and ByXML are 0, 1 and 2; a value is named iff it is one of them; converting a value back gives the same mode |
| ApiModes.ToResponseMode | ApiTools/ApiHelper2/Models/ApiModes.cs:26-32 | any integer is a `ResponseMode` carrying that value; it is a named member exactly for 0..3 |
| ApiModes.ResponseModeEnumeration | ApiTools/ApiHelper2/Models/ApiModes.cs:26-32 | the four named response modes are 0..3; a value is named iff it is among them; the conversion round-trips |
| ApiModes.SignTypes.Value | ApiTools/ApiHelper2/Models/ApiModes.cs:36-44 | `NoSign` is the only sign type whose value is 0 |
| ApiModes.ResultCodeType.Value | ApiTools/ApiHelper2/Models/ApiModes.cs:46-77 | every result code's number is below 10000 |
| ApiModes.ResultCodeType.ToCodeFormat | ApiTools/ApiHelper2/Models/ApiModes.cs:86-89 | exactly four decimal digits, which read back as the code's number |
| ApiModes.FormatCode | ApiTools/ApiHelper2/Models/ApiModes.cs:86-89 | `ToString().PadLeft(4, '0')` of any natural: at least four digits, ends with the plain decimal text, all digits, reads back as the number |
| ApiModes.FormatCodeInjective | ApiTools/ApiHelper2/Models/ApiModes.cs:86-89 | two numbers with the same four-digit text are equal |
| ApiModes.ResultCodeTexts | ApiTools/ApiHelper2/Models/ApiModes.cs:46-77 | the four-digit code texts of the five result codes: 0000, 0001, 2000, 2001, 9999 |
| ApiModes.ResultCodeDescriptions | ApiTools/ApiHelper2/Models/ApiModes.cs:46-77 | the Chinese description attribute of each of the five result codes |
| ApiModes.ResultCodeValuesDistinct | ApiTools/ApiHelper2/Models/ApiModes.cs:46-77 | distinct result codes have distinct numbers and distinct code texts |
| AppErrors.HexTag | ApiTools/ApiHelper2/Models/AppException.cs:127-131 | non-empty exactly for `GSystemFail` with a cause, and then `(0x`, the cause's number in upper-case hex without leading zeros (a zero digit first only for `(0x0)`), and `)`; the number is an `AppException`'s inner result code and any other exception's HResult read as unsigned |
| AppErrors.AppCauseHexTag | ApiTools/ApiHelper2/Models/AppException.cs:127-131 | a `gSystemFail` cause that is itself a `gSystemFail` `AppException` shows as `(0x270F)`, unpadded |
| AppErrors.FrameworkCauseHexTag | ApiTools/ApiHelper2/Models/AppException.cs:127-131 | a `gSystemFail` cause that is an `ArgumentNullException` shows its negative HResult as `(0x80004003)` |
| AppErrors.MessageTag | ApiTools/ApiHelper2/Models/AppException.cs:134-137 | empty exactly when the message is null or white space, otherwise `:` + the message |
| AppErrors.CodeTag | ApiTools/ApiHelper2/Models/AppException.cs:140-143 | `(FE` + the four-digit code + `)` when the code is wanted, otherwise empty |
| AppErrors.GetResultDesc | ApiTools/ApiHelper2/Models/AppException.cs:118-146 | the description, then the hex tag, the message tag and the code tag in that order; the `(0x` part appears iff the code is `GSystemFail` and there is a cause |
| AppErrors.GetResultDescWithCode | ApiTools/ApiHelper2/Models/AppException.cs:91-94 | the three-argument form is the full form with the code tag |
| AppErrors.GetResultDescNotCode | ApiTools/ApiHelper2/Models/AppException.cs:104-107 | the form without the code tag, which is the full text minus its trailing `(FE….)` part |
| AppErrors.ResultDescIgnoresBlankAndCause | ApiTools/ApiHelper2/Models/AppException.cs:118-146 | a blank message is the same as none; a cause matters only for `GSystemFail` |
| AppErrors.NewAppException | ApiTools/ApiHelper2/Models/AppException.cs:46-51 | keeps the code, its four-digit text and the cause; the message is the given one when `isDirectOut`, otherwise the assembled description |
| AppErrors.FromCode | ApiTools/ApiHelper2/Models/AppException.cs:12 | the message is the description followed by `(FE` + code + `)`, with no cause; the result code is the code as four decimal digits and the result description is the message |
| AppErrors.FromCause | ApiTools/ApiHelper2/Models/AppException.cs:19 | the message is the full description with the cause; for codes other than `GSystemFail` it is the plain description with the code tag; the result code is the code as four decimal digits and the result description is the message |
| AppErrors.PlainDescription | ApiTools/ApiHelper2/Models/AppException.cs:118-146 | with no message and no hex tag, the description is the code's text followed by `(FE` + code + `)` |
| AppErrors.WithMessage | ApiTools/ApiHelper2/Models/AppException.cs:26 | the message is the full description of the code and message, with no cause; the result code is the code as four decimal digits and the result description is the message |
| AppErrors.WithMessageAndCause | ApiTools/ApiHelper2/Models/AppException.cs:34 | the message is the full description of code, message and cause; the cause is kept; the result code is the code as four decimal digits and the result description is the message |
| AppErrors.CauseNumber | ApiTools/ApiHelper2/Models/AppException.cs:127-131 | an `AppException` contributes its result code's number, any other exception its HResult as an unsigned 32-bit value |
| RequestParameters.Find | ApiTools/ApiHelper2/RquestParams.cs:43-53 | finds a value iff the name is present, the value found is stored under that name, and with unique names it is the one stored |
| RequestParameters.AddTo | ApiTools/ApiHelper2/RquestParams.cs:43-53 | a null or empty name is `ArgumentNullException`, a present name `ArgumentException`, a null or empty value `ArgumentNullException`, in that order; success iff none applies, appending the pair |
| RequestParameters.AddOptionTo | ApiTools/ApiHelper2/RquestParams.cs:61-68 | a missing value or a present name leaves the parameters as they are; otherwise the pair is appended |
| RequestParameters.AddToPreserves | ApiTools/ApiHelper2/RquestParams.cs:43-53 | a successful `Add` keeps the names unique and the values present |
| RequestParameters.AddOptionToPreserves | ApiTools/ApiHelper2/RquestParams.cs:61-68 | `AddOption` keeps the names unique and the values present |
| RequestParameters.AddOptionIsForgivingAdd | ApiTools/ApiHelper2/RquestParams.cs:61-68 | `AddOption` is `Add` with every refusal turned into "leave unchanged" |
| RequestParameters.DuplicateBeforeMissingValue | ApiTools/ApiHelper2/RquestParams.cs:43-53 | a repeated name is reported before a missing value |
| RequestParameters.Collect | ApiTools/ApiHelper2/RquestParams.cs:27-34 | the parameters taken from an object's properties are well formed |
| RequestParameters.CollectFirstKept | ApiTools/ApiHelper2/RquestParams.cs:27-34 | looking a name up among the collected parameters gives the first property of that name with a non-empty value |
| RequestParameters.RequestParams.constructor | ApiTools/ApiHelper2/RquestParams.cs:20 | a new parameter set is empty |
| RequestParameters.RequestParams.FromProperties | ApiTools/ApiHelper2/RquestParams.cs:27-34 | the set built from the properties holds exactly `Collect` of them |
| RequestParameters.RequestParams.Add | ApiTools/ApiHelper2/RquestParams.cs:43-53 | the new items are those `AddTo` computes, or unchanged together with the error it reports |
| RequestParameters.RequestParams.AddOption | ApiTools/ApiHelper2/RquestParams.cs:61-68 | a null or empty name is `ArgumentNullException` and changes nothing; otherwise the items become `AddOptionTo` of the old ones |
| RequestParameters.RequestParams.Enumerate | ApiTools/ApiHelper2/RquestParams.cs:76-79 | enumerates the stored pairs in order, with unique names |
| KeySort.SortByKey | ApiTools/ApiHelper2/Models/RequestBase.cs:67-73 | `OrderBy(p => p.Key)`: keys ascending, a permutation of the input |
| KeySort.SortByKeySamePairs | ApiTools/ApiHelper2/Models/RequestBase.cs:67-73 | a pair is in the sorted sequence iff it is in the input |
| KeySort.SortByKeyUnique | ApiTools/ApiHelper2/Models/RequestBase.cs:67-73 | unique keys stay unique |
| KeySort.SortByKeyOfSorted | ApiTools/ApiHelper2/Models/RequestBase.cs:67-73 | an already ordered input is left unchanged |
| KeySort.InsertWithKey | ApiTools/ApiHelper2/Models/RequestBase.cs:67-73 | an inserted pair lands before every pair with the same key, and the other pairs with that key keep their order |
| KeySort.SortByKeyStable | ApiTools/ApiHelper2/Models/RequestBase.cs:67-73 | the sort is stable: for every key, the pairs with that key come out in their input order |
| KeySort.SortByKeyIdempotent | ApiTools/ApiHelper2/Models/RequestBase.cs:67-73 | sorting twice is sorting once |
| KeySort.SortByKeyMapValues | ApiTools/ApiHelper2/JsonUtil.cs:297-311 | sorting commutes with changing the values |
| Requests.Request.Method | ApiTools/ApiHelper2/Models/RequestBase.cs:30 | POST unless a derived request overrides the verb |
| Requests.CreateRquestParams | ApiTools/ApiHelper2/Models/RequestBase.cs:54-57 | the base version throws `NotImplementedException`; an overriding request gives its parameters |
| Requests.ToQueryString | ApiTools/ApiHelper2/Models/RequestBase.cs:63-80 | a request without a `CreateRquestParams` override throws `NotImplementedException`; for GET the name-sorted, encoded `&` query; otherwise the pairs in order, joined by line feeds |
| Requests.GetQueryReadsBack | ApiTools/ApiHelper2/Models/RequestBase.cs:67-73 | with an encoder that never emits `&` or `=`, splitting the GET query on `&` gives the encoded pairs of the name-sorted parameters, one per piece |
| Requests.GetQuery | ApiTools/ApiHelper2/Models/RequestBase.cs:63-80 | the GET form: the name-sorted parameters, encoded, joined by `&`; stated by `GetQueryReadsBack` and `GetQuerySeparators` |
| Requests.PostQuery | ApiTools/ApiHelper2/Models/RequestBase.cs:63-80 | the other form: the parameters in order, joined by line feeds; stated by `PostQueryReadsBack` |
| Requests.GetQuerySeparators | ApiTools/ApiHelper2/Models/RequestBase.cs:67-73 | a GET query has one `&` fewer than it has parameters |
| Requests.PostQueryReadsBack | ApiTools/ApiHelper2/Models/RequestBase.cs:75-79 | splitting the POST form on line feeds gives `name=value` for each parameter in order |
| Requests.EmptyQuery | ApiTools/ApiHelper2/Models/RequestBase.cs:63-80 | an empty parameter set renders as the empty string in both forms |
| Requests.ToString | ApiTools/ApiHelper2/Models/RequestBase.cs:155-174 | GET always gives the query string; POST picks the query string, the JSON or the XML by mode, and an undefined mode gives the empty string |
| Requests.ToJSONWith | ApiTools/ApiHelper2/Models/RequestBase.cs:112-117 | a null converter is `ArgumentNullException("converter")`, otherwise the converter's output |
| Requests.ToXMLWith | ApiTools/ApiHelper2/Models/RequestBase.cs:134-140 | the same guard as `ToJSON(converter)` |
| Requests.ToFormData | ApiTools/ApiHelper2/Models/RequestBase.cs:146-149 | always `NotSupportedException` |
| JsonDecode.Tokens | ApiTools/ApiHelper2/JsonUtil.cs:215-274 | the token stream of a value is never empty and does not open with a closing token |
| JsonDecode.ReadValue | ApiTools/ApiHelper2/JsonUtil.cs:215-274 | a value read from the stream ends at or after its first token and inside the stream |
| JsonDecode.ReadMembers | ApiTools/ApiHelper2/JsonUtil.cs:222-260 | the rebuilt value is an object ending inside the stream |
| JsonDecode.ReadValueStrict | ApiTools/ApiHelper2/JsonUtil.cs:215-274 | a value read successfully is strict: no object in it repeats a name |
| JsonDecode.ReadMembersStrict | ApiTools/ApiHelper2/JsonUtil.cs:222-260 | from distinct, strict properties so far, the object rebuilt is strict |
| JsonDecode.ReadElements | ApiTools/ApiHelper2/JsonUtil.cs:262-272 | the rebuilt value is an array ending inside the stream |
| JsonDecode.ReadElementsStrict | ApiTools/ApiHelper2/JsonUtil.cs:262-272 | from strict elements so far, the array rebuilt is strict |
| JsonDecode.Deserialize | ApiTools/ApiHelper2/JsonUtil.cs:199-209 | a successful result is strict; an empty stream gives the null value |
| JsonDecode.MembersRepeat | ApiTools/ApiHelper2/JsonUtil.cs:232-242 | a property whose name was already read stops the object with a duplicate-key error |
| JsonDecode.ReadTokens | ApiTools/ApiHelper2/JsonUtil.cs:215-274 | a strict value is read back exactly from its own tokens, wherever they sit |
| JsonDecode.MemberRead | ApiTools/ApiHelper2/JsonUtil.cs:232-242 | a strict property with a new name, read from its tokens, is appended and the rebuild goes on right after its value |
| JsonDecode.ElementRead | ApiTools/ApiHelper2/JsonUtil.cs:262-272 | a strict element, read from its tokens, is appended and the rebuild goes on right after it |
| JsonDecode.RejectTokens | ApiTools/ApiHelper2/JsonUtil.cs:232-242 | reading the tokens of a value that is not strict fails, with a duplicate-key error for a name the value repeats |
| JsonDecode.DeserializeTokens | ApiTools/ApiHelper2/JsonUtil.cs:199-209 | deserializing the tokens of a value succeeds iff it is strict, and then gives the value back; otherwise a name it repeats is reported |
| JsonDecode.StrictIffNoRepeat | ApiTools/ApiHelper2/JsonUtil.cs:232-242 | a value is strict exactly when no object inside it repeats a name |
| JsonReader.TokenReader.constructor | ApiTools/ApiHelper2/JsonUtil.cs:199-209 | a new reader sits before the first token |
| JsonReader.TokenReader.TokenType | ApiTools/ApiHelper2/JsonUtil.cs:215-274 | the current token, present exactly while the cursor is inside the stream |
| JsonReader.TokenReader.Read | ApiTools/ApiHelper2/JsonUtil.cs:215-274 | advances the cursor by one until the end, and reports whether a token is there |
| JsonReader.DecodeFrom | ApiTools/ApiHelper2/JsonUtil.cs:215-220 | from the reader's position, skipping the not-yet-started state: a successful value is strict |
| JsonReader.DeserializeReader | ApiTools/ApiHelper2/JsonUtil.cs:215-274 | the reader's result is the specification's, and the cursor ends on the value's last token |
| JsonReader.ReadObject | ApiTools/ApiHelper2/JsonUtil.cs:222-260 | the imperative object loop computes what `ReadValue` specifies |
| JsonReader.MemberAccepted | ApiTools/ApiHelper2/JsonUtil.cs:232-242 | a property with a new name whose value is read is appended, and the rebuild goes on after the value |
| JsonReader.ReadArray | ApiTools/ApiHelper2/JsonUtil.cs:262-272 | the imperative array loop computes what `ReadValue` specifies |
| JsonReader.Raised | ApiTools/ApiHelper2/JsonUtil.cs:199-209 | a duplicate is raised as `JsonException` with the duplicate-key message naming the key, a malformed stream as `JsonReaderException`, and a success is kept |
| JsonReader.DeserializeNonDuplicates | ApiTools/ApiHelper2/JsonUtil.cs:199-209 | what the reader raises or returns is the specification's |
| JsonReader.NonDuplicatesOfTokens | ApiTools/ApiHelper2/JsonUtil.cs:199-209 | on a value's tokens: the value itself iff it is strict, otherwise `JsonException` for a repeated name |
| JsonReader.RepeatedNameRefused | ApiTools/ApiHelper2/JsonUtil.cs:232-242 | `{"a":1,"a":2}` is refused, naming `a` |
| JsonReader.NameReuseAcrossObjectsAccepted | ApiTools/ApiHelper2/JsonUtil.cs:232-242 | the same name in two different objects is accepted |
| JsonReader.DeserializeReaderPastEnd | ApiTools/ApiHelper2/JsonUtil.cs:215-273 | as written, `DeserializeReader` on a reader past the end of the stream reads (and stays there), finds no start token and returns a null value, leaving the reader at the end |
| JsonReader.ArrayLoopAsWrittenStuck | ApiTools/ApiHelper2/JsonUtil.cs:262-272 | as written, once the reader is past the end of the stream the array loop never moves it, its test never fails, and every round adds a null |
| JsonReader.TruncatedArrayAsWritten | ApiTools/ApiHelper2/JsonUtil.cs:262-272 | as written, `[1` reaches the end of the stream inside the array loop and goes on adding nulls |
| JsonReader.TruncatedObjectAsWritten | ApiTools/ApiHelper2/JsonUtil.cs:224-248 | as written, `{"a":1` reaches the end of the stream inside the object loop, whose next round reads a null name and fails with `ArgumentNullException` |
| JsonReader.TruncatedArrayRefused | ApiTools/ApiHelper2/JsonUtil.cs:262-272 | the model refuses `[1` with `JsonReaderException` |
| JsonReader.TruncatedObjectRefused | ApiTools/ApiHelper2/JsonUtil.cs:224-248 | the model refuses `{"a":1` with `JsonReaderException` |
| JsonSort.SortValueMapped | ApiTools/ApiHelper2/JsonUtil.cs:297-311 | a sorted object is its properties with values sorted, put in name order, in either order of the two steps |
| JsonSort.SortValue | ApiTools/ApiHelper2/JsonUtil.cs:297-311 | `Sort` on a value: each object's properties in name order, their values sorted likewise; stated by `SortValueMapped`, `SortKeepsProperties`, `SortLeavesArrays`, `SortIdempotent` and `SortKeepsStrict` |
| JsonSort.Sort | ApiTools/ApiHelper2/JsonUtil.cs:297-311 | the imperative sort computes exactly `SortValue` |
| JsonSort.SortKeepsProperties | ApiTools/ApiHelper2/JsonUtil.cs:297-311 | names ascending, the same number of properties, and exactly the original properties with their values sorted |
| JsonSort.SortLeavesArrays | ApiTools/ApiHelper2/JsonUtil.cs:305-310 | a property whose value is not an object, arrays included, keeps its value unchanged |
| JsonSort.SortIdempotent | ApiTools/ApiHelper2/JsonUtil.cs:297-311 | sorting a sorted value changes nothing |
| JsonSort.SortKeepsStrict | ApiTools/ApiHelper2/JsonUtil.cs:297-311 | sorting keeps names distinct in every object |
| Csv.CsvLineToArray | ApiTools/ApiHelper2/JsonUtil.cs:369-374 | at least one cell, and rejoining the cells with commas gives the line back |
| Csv.CsvLineSeparators | ApiTools/ApiHelper2/JsonUtil.cs:369-374 | one cell more than there are separating commas (those followed by an even number of quotes), and each cell after the first starts right after such a comma |
| Csv.SingleCell | ApiTools/ApiHelper2/JsonUtil.cs:369-374 | a line without a comma is one cell |
| Csv.QuotedCommaKept | ApiTools/ApiHelper2/JsonUtil.cs:369-374 | a comma inside quotes does not split |
| Csv.SplitLinesIsSplit | ApiTools/ApiHelper2/JsonUtil.cs:320-326 | splitting at CR LF and at LF is splitting at LF after CR LF is replaced by LF; a lone CR stays inside its line |
| Csv.SplitLinesShape | ApiTools/ApiHelper2/JsonUtil.cs:320-326 | at least one line, none holding an LF, and joined with LF they give the text with CR LF replaced by LF |
| Csv.SplitLines | ApiTools/ApiHelper2/JsonUtil.cs:324 | `Split(new[] { "\r\n", "\n" }, None)` on the text; its contract is stated by `SplitLinesIsSplit`, `SplitLinesShape` and `LoneCarriageReturnKept` |
| Csv.LoneCarriageReturnKept | ApiTools/ApiHelper2/JsonUtil.cs:320-326 | a CR that is not followed by LF does not end a line and stays in it |
| Csv.TrimmedHeader | ApiTools/ApiHelper2/JsonUtil.cs:346-349 | one name per header cell, each cell trimmed |
| Csv.BuildRow | ApiTools/ApiHelper2/JsonUtil.cs:352-357 | the imperative row loop computes exactly `RowObject` |
| Csv.RowObject | ApiTools/ApiHelper2/JsonUtil.cs:346-357 | one object from the header and a line's cells; its outcomes are stated by `RowFromSuccess`, `RowFromOutOfRange`, `RowFromDuplicate`, `RowObjectShape` and `RowObjectIsRow` |
| Csv.RowFromSuccess | ApiTools/ApiHelper2/JsonUtil.cs:352-357 | a row succeeds iff it has at least as many cells as names and the names are distinct; it is then the names paired with the cells |
| Csv.RowFromOutOfRange | ApiTools/ApiHelper2/JsonUtil.cs:352-357 | a row fails with `IndexOutOfRangeException` exactly when it runs out of cells before any repeated name |
| Csv.RowFromDuplicate | ApiTools/ApiHelper2/JsonUtil.cs:352-357 | any other failure of a row is the `ArgumentException` naming the second occurrence of a repeated name |
| Csv.RowObjectShape | ApiTools/ApiHelper2/JsonUtil.cs:346-357 | for the trimmed header: success exactly when the row has a cell for every header name and the names are distinct, and then the object pairs the names with the cells in order; `IndexOutOfRangeException` exactly when the row runs short before any repeated name; any other failure is `JObject.Add`'s `ArgumentException` naming a repeated header name |
| Csv.RowObjectIsRow | ApiTools/ApiHelper2/JsonUtil.cs:352-357 | a successful row is a strict object of string values |
| Csv.RowsDecode | ApiTools/ApiHelper2/JsonUtil.cs:360 | the tokens of an array of row objects go through the duplicate-rejecting rebuild unchanged |
| Csv.RowsAreRows | ApiTools/ApiHelper2/JsonUtil.cs:339-359 | every object the lines build is a row object: distinct names, string values |
| Csv.CsvArray | ApiTools/ApiHelper2/JsonUtil.cs:335-359 | the `jArray` the loop builds; its shape is stated by `CsvToJsonShape`, `CsvToJsonAllBlank`, `CsvToJsonHeaderOnly`, `RowsInOrder` and `RowsSucceed` |
| Csv.CsvToJsonValue | ApiTools/ApiHelper2/JsonUtil.cs:335-361 | the built array written out and read back; `CsvToJsonRereads` states when that is the built array |
| Csv.CsvToJsonRereads | ApiTools/ApiHelper2/JsonUtil.cs:360 | when the library reads the written array back as the array's own tokens, `CsvToJson` gives exactly the array it built; a build failure is passed on |
| Csv.CsvLinesToJson | ApiTools/ApiHelper2/JsonUtil.cs:335-361 | the imperative conversion of lines computes exactly `CsvToJsonValue`: the built array written out with `render` and read back through `lexer` and the duplicate-rejecting rebuild |
| Csv.CsvTextToJson | ApiTools/ApiHelper2/JsonUtil.cs:320-326 | the text form is the lines form on the split lines, with the same `render` and `lexer` |
| Csv.NonBlank | ApiTools/ApiHelper2/JsonUtil.cs:341-344 | the kept lines are not blank |
| Csv.RowsOfNonBlank | ApiTools/ApiHelper2/JsonUtil.cs:341-344 | blank lines make no difference to the rows |
| Csv.RowsSucceed | ApiTools/ApiHelper2/JsonUtil.cs:352-357 | the rows succeed iff every line's row does |
| Csv.RowsInOrder | ApiTools/ApiHelper2/JsonUtil.cs:352-357 | one row per line, in order, each the row of its line |
| Csv.CsvToJsonShape | ApiTools/ApiHelper2/JsonUtil.cs:335-361 | when some line is not blank, the first such line is the header and the later non-blank lines are the rows of the built array |
| Csv.CsvToJsonAllBlank | ApiTools/ApiHelper2/JsonUtil.cs:335-361 | lines that are all blank, or none, build the empty array |
| Csv.CsvToJsonHeaderOnly | ApiTools/ApiHelper2/JsonUtil.cs:335-361 | a single non-blank line is only a header and builds the empty array |
| JsonDictionary.DeserializeToDictionary | ApiTools/ApiHelper2/JsonUtil.cs:380-424 | the imperative version, with its loop over the properties, computes exactly `DictionaryOf`, including the failed cast of a scalar, whose cases `DictionaryOfShape` lists |
| JsonDictionary.DictionaryOf | ApiTools/ApiHelper2/JsonUtil.cs:381-424 | what `DeserializeToDictionary` returns or throws; every case is stated by `DictionaryOfShape` |
| JsonDictionary.EntryList | ApiTools/ApiHelper2/JsonUtil.cs:401-422 | one entry per property |
| JsonDictionary.EntriesFromShape | ApiTools/ApiHelper2/JsonUtil.cs:401-422 | success iff the names are unique: objects and arrays serialized, scalars as their text; otherwise the `Dictionary.Add` `ArgumentException` |
| JsonDictionary.DictionaryOfShape | ApiTools/ApiHelper2/JsonUtil.cs:380-424 | every outcome: a parse failure is passed on; a null parse is `ArgumentNullException("source")`; a top-level scalar fails the `JToken` cast with `InvalidCastException`; an array gives the empty dictionary; an object with no object or array property is the library's dictionary conversion; otherwise the dictionary is the object's properties in order, succeeding iff the names are distinct and refusing a repeat with `Add`'s `ArgumentException` |
| JsonDictionary.JsonGetOfScalar | ApiTools/ApiHelper2/JsonUtil.cs:101-152 | a non-blank text holding a top-level scalar makes `JsonGet`, `JsonGet(property)` and `JsonGetArray` fail with `InvalidCastException` |
| JsonDictionary.FoldCase | ApiTools/ApiHelper2/JsonUtil.cs:101-113 | upper-cases every ASCII letter and nothing else |
| JsonDictionary.FindFrom | ApiTools/ApiHelper2/JsonUtil.cs:121-126 | the first key equal to the wanted one up to case, or none iff there is no such key |
| JsonDictionary.FindIgnoresCase | ApiTools/ApiHelper2/JsonUtil.cs:121-126 | two keys equal up to case are found at the same place |
| JsonDictionary.FindOwnKey | ApiTools/ApiHelper2/JsonUtil.cs:121-126 | in a dictionary without case clashes, a key is found at its own entry |
| JsonDictionary.JsonGetPropertyShape | ApiTools/ApiHelper2/JsonUtil.cs:101-126 | blank JSON gives null; the answer does not depend on the case of the property; null iff no key matches or its value is null; otherwise the matching key's value |
| JsonDictionary.JsonGet | ApiTools/ApiHelper2/JsonUtil.cs:101-113 | blank text gives the empty dictionary, otherwise `DeserializeToDictionary` copied into a case-insensitive dictionary; stated by `JsonGetShape`, `JsonGetPropertyShape` and `JsonGetOfScalar` |
| JsonDictionary.JsonGetShape | ApiTools/ApiHelper2/JsonUtil.cs:101-113 | blank text gives the empty dictionary; otherwise a failure of `DeserializeToDictionary` passes through, and its dictionary comes back unchanged exactly when no two keys are equal up to case, each key then finding its own entry; a case clash fails with `Dictionary.Add`'s `ArgumentException` |
| JsonDictionary.JsonGetProperty | ApiTools/ApiHelper2/JsonUtil.cs:121-126 | the value under the property ignoring case, null when absent; stated by `JsonGetPropertyShape` |
| JsonDictionary.JsonGetArray | ApiTools/ApiHelper2/JsonUtil.cs:147-152 | the value of each property in turn, `KeyNotFoundException` for a missing one; stated by `LookupAllShape` and `JsonGetArrayAgrees` |
| JsonDictionary.LookupAllShape | ApiTools/ApiHelper2/JsonUtil.cs:147-152 | success iff every property is found, then one value per property in order; otherwise `KeyNotFoundException` |
| JsonDictionary.JsonGetArrayAgrees | ApiTools/ApiHelper2/JsonUtil.cs:147-152 | each value found is the one a single `JsonGet(property)` finds |
| JsonDictionary.SerializeFromDictionary | ApiTools/ApiHelper2/JsonUtil.cs:431-473 | the imperative writer loop computes exactly `SerializedDictionary` |
| JsonDictionary.SerializedDictionary | ApiTools/ApiHelper2/JsonUtil.cs:431-473 | what `SerializeFromDictionary` returns; stated by `TextsFromShape` and `RefundItemsWrittenRaw` |
| JsonDictionary.TextsFromShape | ApiTools/ApiHelper2/JsonUtil.cs:443-469 | success iff no `RefundItems` entry is null; each entry's text is in order; otherwise `NullReferenceException` |
| JsonDictionary.RefundItemsWrittenRaw | ApiTools/ApiHelper2/JsonUtil.cs:449-454 | on three entries: `[{"Id":1}]` under `RefundItems` is written raw, the same text under `Items` is quoted, and `[1]` under `RefundItems` is quoted |
| JsonDictionary.IsValidJsonShape | ApiTools/ApiHelper2/JsonUtil.cs:158-190 | valid iff not null, the trimmed text is `{…}` or `[…]` of at least two characters, and it parses |
| JsonDictionary.IsValidJson | ApiTools/ApiHelper2/JsonUtil.cs:158-190 | the bracket test, then the parse; stated by `IsValidJsonShape` |
| JsonDictionary.BracketTest | ApiTools/ApiHelper2/JsonUtil.cs:160-168 | the brace/bracket test of the trimmed text, stated on its first and last characters |
| Utf8.EncodeChar | ApiTools/ApiHelper2/ApiBase.cs:123-132 | one to four bytes per character, exactly one iff the character is ASCII |
| Utf8.DecodeEncode | ApiTools/ApiHelper2/ApiBase.cs:123-132 | the body bytes decode back to the request text |
| Utf8.EncodeLength | ApiTools/ApiHelper2/ApiBase.cs:123-132 | the body is between one and four bytes per character, and its length equals the character count iff the text is ASCII |
| Utf8.Encode | ApiTools/ApiHelper2/ApiBase.cs:125 | `Encoding.UTF8.GetBytes` of the request text; stated by `DecodeEncode` and `EncodeLength` |
| Transport.GetResponseContent | ApiTools/ApiHelper2/ApiBase.cs:174-201 | JSON mode gives the text itself for a `string` target, and otherwise the strictly decoded value, failing exactly when the rebuild fails; text, stream and XML give the text, failing with `InvalidCastException` exactly for a target that is neither `string` nor a type `string` converts to by reference (`object`, `IComparable`, `IEnumerable<char>`, …); `NotSupportedException` exactly for an undefined mode |
| Transport.OnSetException | ApiTools/ApiHelper2/ApiBase.cs:209-239 | a web exception becomes an `AppException`, anything else is kept |
| Transport.OnSetExceptionMapping | ApiTools/ApiHelper2/ApiBase.cs:209-239 | the six not-found/not-allowed statuses give `ConnectNotFoundOrNotAllowed`, a time-out gives `ConnectFail` with the time-out message, other statuses give `ConnectFail`; non-web exceptions are unchanged |
| Transport.TimeoutMs | ApiTools/ApiHelper2/ApiBase.cs:84 | seconds times 1000, wrapped to 32 bits |
| Transport.TimeoutRange | ApiTools/ApiHelper2/ApiBase.cs:31-37 | the default is 10000 ms; up to 2147483 s the time-out is exact and accepted; 2147484 s wraps to a refused value |
| Transport.GetRequestShape | ApiTools/ApiHelper2/ApiBase.cs:75-95 | a GET request goes to the base URL + `?` + the query, with no body and the form-urlencoded content type |
| Transport.RequestFor | ApiTools/ApiHelper2/ApiBase.cs:53-132 | the `HttpWebRequest` that `PostToAPI` prepares; stated by `GetRequestShape` and `PostRequestShape` |
| Transport.ReadResponse | ApiTools/ApiHelper2/ApiBase.cs:135-155 | the status check and the content read; stated by `BadStatusFails` and `SuccessShape` |
| Transport.PostOutcome | ApiTools/ApiHelper2/ApiBase.cs:53-165 | the request, the send and the reply read, with every failure passed through `OnSetException`; `ApiBase.PostToApi` computes it |
| Transport.PostRequestShape | ApiTools/ApiHelper2/ApiBase.cs:97-132 | a POST request goes to the base URL with the mode's content type, and its body and length are the UTF-8 encoding of the content, URL-decoded first for URL mode |
| Transport.BadStatusFails | ApiTools/ApiHelper2/ApiBase.cs:138-144 | a status outside 200..299 fails: with the plain `Exception` carrying the connection-error message, which `OnSetException` passes through unchanged, or with the error of reading the status description if that read fails first |
| Transport.ContentErrorsNotWeb | ApiTools/ApiHelper2/ApiBase.cs:174-201 | errors from reading the content are never web exceptions, so the catch passes them through unchanged |
| Transport.SuccessShape | ApiTools/ApiHelper2/ApiBase.cs:146-154 | a 2xx reply gives the content for the response mode together with the reply's headers |
| Transport.JsonReplyStrict | ApiTools/ApiHelper2/ApiBase.cs:174-201 | a JSON reply for an object target is the value itself iff it is strict, otherwise `JsonException` |
| Transport.ServicePointConfig.BypassCertificateFor | ApiTools/ApiHelper2/ApiBase.cs:66-72 | an `https` URL installs the accept-all certificate callback; otherwise nothing changes |
| Transport.ApiBase.constructor | ApiTools/ApiHelper2/ApiBase.cs:16-37 | no service URL, and the given connection time-out |
| Transport.ApiBase.PrepareRequest | ApiTools/ApiHelper2/ApiBase.cs:53-132 | the request built is `RequestFor`, and the certificate callback is set for an `https` URL |
| Transport.ApiBase.PostToApi | ApiTools/ApiHelper2/ApiBase.cs:53-165 | the outcome is `PostOutcome`: the request, the send, the status check and the content read, with every failure passed through `OnSetException` |

## Left out

- Excel tools, the model validators, `XmlUtil` and `APIResult` are outside this model. So are the
  `SetHeader` overrides of derived requests: the base `SetHeader` does nothing.
- Newtonsoft.Json is not modelled. Its serializers, `ToObject<T>`, `JToken.Parse` and the JSON text
  lexer are function parameters. So are `HttpUtility.UrlEncode`/`UrlDecode` and
  `HttpWebRequest`/`GetResponse`. No network traffic is modelled: `send` is a parameter.
- The `T` of type-parameterized readers is not modelled. A conversion to `T` that fails is the
  library's business, and the model returns the `Json` value. `GetResponseContent` tells apart only
  `string`, the types `string` converts to by reference (`object` and the interfaces `string`
  implements, for which the cast `(T)(Object)Response` succeeds), and all other types.
- The reader's comment tokens are not modelled. A token out of place, and a stream that ends inside
  an array or an object, are one `Malformed` error, raised as `JsonReaderException`. The source's
  loops do not stop at the end of a truncated stream; see "## Findings".
- Culture-sensitive `StartsWith`/`EndsWith` (the `https` test of `PostToAPI` and the bracket tests
  of `IsValidJson` and the `RefundItems` test of `SerializeFromDictionary`) are modelled as ordinal prefix and suffix tests.
- The `Console.WriteLine` logging in the catch blocks of `IsValidJson` is not modelled: it changes
  no result.
- `CombineWithArray` is not modelled: nothing calls it.
- `OrderBy` compares names ordinally; the culture-sensitive comparer is not modelled.
- Case-insensitive lookup folds ASCII letters only.
- Floating-point and culture number formatting of non-integer JSON numbers is not modelled. Such
  values carry their text.
- JsonSort.Sort: modelled on immutable values, not as an in-place update of a shared `JObject` graph.
- A null line array in `CsvToJson`, and a null JSON string in `DeserializeToDictionary`, are not
  modelled. In `JsonGet` a null string behaves as blank.
- The `HasValues` skip in `DeserializeToDictionary` is not modelled: a property always has a value,
  so that branch never runs.
- The `ArgumentException` text for a repeated dictionary key is the .NET Framework message.
- Request parameter values are modelled as their text. The source converts them to text when it
  renders the query.
- Transport.ApiBase.PrepareRequest: `ToString()` runs twice for GET. The model takes the second call
  to return the same text as the first.
- Utf8.Encode: covers Dafny characters, which are Unicode scalar values, so lone surrogates are not
  modelled.
- `DeserializeNonDuplicates` works on the reader's tokens. The step from text to tokens is the
  `lexer` parameter, in `GetResponseContent` and in `CsvToJson` alike; `jArray.ToString()` in
  `CsvToJson` is the `render` parameter.
- Csv.CsvLinesToJson: the reader's date recognition (`DateParseHandling.DateTime`) is not modelled.
  It can read a string cell such as `2024-01-31T10:00:00` or `/Date(0)/` back as a date, so the
  source need not give back the rows it built; `CsvToJsonRereads` states the result only for a
  `lexer` that gives back the array's own tokens.
- The `webHttpCode` variable in `PostToAPI` is never read, and is not modelled.

## Findings

| source | as written | input that shows it | evidently intended | confidence | as-written member | corrected member |
|---|---|---|---|---|---|---|
| ApiTools/ApiHelper2/JsonUtil.cs:262-272 | the array loop of `DeserializeReader` never checks what `Read` returns; past the end of the stream `TokenType` is `None`, never `EndArray`, and each round adds a null | `[1` | a stream that ends inside an array is a reader error | not executed; follows from the reader reporting `None` at the end of its input | JsonReader.ArrayLoopAsWrittenStuck | JsonReader.TruncatedArrayRefused |
| ApiTools/ApiHelper2/JsonUtil.cs:224-248 | the object loop of `DeserializeReader` reads a name from `Value` past the end of the stream, where it is null, and `obj[propName]` throws `ArgumentNullException` | `{"a":1` | a stream that ends inside an object is a reader error | not executed; follows from the reader reporting `None` and a null `Value` at the end of its input | JsonReader.TruncatedObjectAsWritten | JsonReader.TruncatedObjectRefused |
