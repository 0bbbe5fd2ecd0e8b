/**
 * The CSV helpers of `JsonUtil`: `CsvLineToArray` (the regular-expression split of one
 * line), and both `CsvToJson` overloads, which read a header line and turn every later line
 * into an object keyed by the trimmed header cells.
 */
module Csv {
  import opened Wrappers
  import opened Text
  import opened KeySort
  import opened AppErrors
  import opened JsonDecode
  import opened JsonReader

  // ---------------------------------------------------------------- one line

  /**
   * A comma separates two cells when an even number of double quotes follows it in the
   * line: that is the lookahead of the split pattern. Quotes are not removed.
   */
  predicate EvenQuotes(s: string) {
    Count(s, '"') % 2 == 0
  }

  /** How many commas of `s` separate cells. */
  function SeparatorCount(s: string): nat
  {
    if s == [] then 0
    else (if s[0] == ',' && EvenQuotes(s[1..]) then 1 else 0) + SeparatorCount(s[1..])
  }

  /** `CsvLineToArray`: the cells between the separating commas; joined with commas they give the line back. */
  function CsvLineToArray(line: string): (cells: seq<string>)
    ensures |cells| >= 1
    ensures Join(",", cells) == line
  {
    if line == [] then [""]
    else
      var rest := CsvLineToArray(line[1..]);
      if line[0] == ',' && EvenQuotes(line[1..]) then
        JoinCons(",", "", rest);
        [""] + rest
      else
        JoinPrependToHead(",", [line[0]], rest);
        assert line == [line[0]] + line[1..];
        [[line[0]] + rest[0]] + rest[1..]
  }

  /** The text of the cells from the `k`-th on, as they stand in the line. */
  function JoinFrom(cells: seq<string>, k: nat): string
    requires k <= |cells|
  {
    Join(",", cells[k..])
  }

  /**
   * The cells are cut at exactly the separating commas: there is one cell more than there
   * are separating commas, and the comma before each cell but the first is a separating one
   * (an even number of quotes follows it).
   */
  lemma {:induction false} CsvLineSeparators(line: string)
    ensures var cells := CsvLineToArray(line);
      && |cells| == 1 + SeparatorCount(line)
      && forall k :: 1 <= k < |cells| ==> EvenQuotes(JoinFrom(cells, k))
    decreases |line|
  {
    if line != [] {
      CsvLineSeparators(line[1..]);
      var rest := CsvLineToArray(line[1..]);
      var cells := CsvLineToArray(line);
      if line[0] == ',' && EvenQuotes(line[1..]) {
        assert cells == [""] + rest;
        forall k | 1 <= k < |cells| ensures EvenQuotes(JoinFrom(cells, k)) {
          assert cells[k..] == rest[k - 1..];
          if k > 1 {
            assert JoinFrom(cells, k) == JoinFrom(rest, k - 1);
          } else {
            assert rest[0..] == rest;
          }
        }
      } else {
        assert cells == [[line[0]] + rest[0]] + rest[1..];
        forall k | 1 <= k < |cells| ensures EvenQuotes(JoinFrom(cells, k)) {
          assert cells[k..] == rest[k..];
          assert JoinFrom(cells, k) == JoinFrom(rest, k);
        }
      }
    }
  }

  /** A line without a separating comma is a single cell, quotes and all. */
  lemma SingleCell(line: string)
    requires SeparatorCount(line) == 0
    ensures CsvLineToArray(line) == [line]
  {
    CsvLineSeparators(line);
    var cells := CsvLineToArray(line);
    assert Join(",", cells) == cells[0];
  }

  /** `"a,b",c` has two cells: the comma inside the quotes is not a separator. */
  lemma QuotedCommaKept()
    ensures CsvLineToArray("\"a,b\",c") == ["\"a,b\"", "c"]
  {
    assert CsvLineToArray(",c") == ["", "c"];
    CellGrows("\",c", "\"", ",c", "");
    CellGrows("b\",c", "b\"", "\",c", "\"");
    CellGrows(",b\",c", ",b\"", "b\",c", "b\"");
    CellGrows("a,b\",c", "a,b\"", ",b\",c", ",b\"");
    CellGrows("\"a,b\",c", "\"a,b\"", "a,b\",c", "a,b\"");
  }

  /** A character that does not separate joins the first cell of what follows it. */
  lemma CellGrows(line: string, cell: string, rest: string, head: string)
    requires line != [] && line[1..] == rest && cell == [line[0]] + head
    requires CsvLineToArray(rest) == [head, "c"]
    requires line[0] != ',' || !EvenQuotes(rest)
    ensures CsvLineToArray(line) == [cell, "c"]
  {
  }

  // ---------------------------------------------------------------- lines of a text

  /** The text with every `"\r\n"` replaced by `"\n"`, left to right. */
  function NormalizeNewlines(s: string): string
  {
    if s == [] then []
    else if |s| >= 2 && s[0] == '\r' && s[1] == '\n' then "\n" + NormalizeNewlines(s[2..])
    else [s[0]] + NormalizeNewlines(s[1..])
  }

  /**
   * `text.Split(new[] { "\r\n", "\n" }, StringSplitOptions.None)`: at each position
   * `"\r\n"` is tried first, then `"\n"`; a lone `'\r'` stays in its line.
   */
  function SplitLines(s: string): seq<string>
  {
    if s == [] then [""]
    else if |s| >= 2 && s[0] == '\r' && s[1] == '\n' then [""] + SplitLines(s[2..])
    else if s[0] == '\n' then [""] + SplitLines(s[1..])
    else
      var rest := SplitLines(s[1..]);
      [[s[0]] + rest[0]] + rest[1..]
  }

  /**
   * Splitting at both line ends is splitting the normalised text at `'\n'`: the lines hold
   * no `'\n'`, and joined with `"\n"` they give the normalised text back.
   */
  lemma {:induction false} SplitLinesIsSplit(s: string)
    ensures SplitLines(s) == Split(NormalizeNewlines(s), '\n')
    decreases |s|
  {
    if s == [] {
    } else if |s| >= 2 && s[0] == '\r' && s[1] == '\n' {
      SplitLinesIsSplit(s[2..]);
      assert ("\n" + NormalizeNewlines(s[2..]))[1..] == NormalizeNewlines(s[2..]);
    } else if s[0] == '\n' {
      SplitLinesIsSplit(s[1..]);
      assert ([s[0]] + NormalizeNewlines(s[1..]))[1..] == NormalizeNewlines(s[1..]);
    } else {
      SplitLinesIsSplit(s[1..]);
      assert ([s[0]] + NormalizeNewlines(s[1..]))[1..] == NormalizeNewlines(s[1..]);
    }
  }

  lemma SplitLinesShape(s: string)
    ensures var lines := SplitLines(s);
      && |lines| >= 1
      && (forall i :: 0 <= i < |lines| ==> '\n' !in lines[i])
      && Join("\n", lines) == NormalizeNewlines(s)
  {
    SplitLinesIsSplit(s);
  }

  /** A CR not followed by LF does not end a line: it stays at the head of the first line. */
  lemma LoneCarriageReturnKept(s: string)
    requires s != [] && s[0] == '\r' && (|s| == 1 || s[1] != '\n')
    ensures var rest := SplitLines(s[1..]);
      |rest| >= 1 && SplitLines(s) == [['\r'] + rest[0]] + rest[1..]
  {
    SplitLinesShape(s[1..]);
  }

  // ---------------------------------------------------------------- one row

  /** `JObject.Add`'s message for a name already present. */
  function AddPropertyMessage(name: string): string {
    "Can not add property " + name + " to Newtonsoft.Json.Linq.JObject. Property with the same name already exists on object."
  }

  /** The header cells, each trimmed: the names of a row's properties. */
  function TrimmedHeader(header: seq<string>): (names: seq<string>)
    ensures |names| == |header| && forall i :: 0 <= i < |header| ==> names[i] == Trim(header[i])
  {
    seq(|header|, i requires 0 <= i < |header| => Trim(header[i]))
  }

  /** The first `n` names are pairwise distinct. */
  predicate DistinctPrefix(names: seq<string>, n: nat)
    requires n <= |names|
  {
    forall a, b :: 0 <= a < b < n ==> names[a] != names[b]
  }

  /**
   * The row loop from header cell `i` on, `acc` holding the properties added so far: step
   * `i` reads cell `i` (out of range when the row is short) and then adds it under name
   * `i`, which fails if that name is already present.
   */
  function RowFrom(names: seq<string>, content: seq<string>, i: nat, acc: seq<(string, Json)>): Result<Json, Exception>
    requires i <= |names|
    decreases |names| - i
  {
    if i == |names| then Result.Success(JObject(acc))
    else if i >= |content| then Failure(Framework(IndexOutOfRangeException))
    else if names[i] in Keys(acc) then Failure(Framework(ArgumentException(AddPropertyMessage(names[i]))))
    else RowFrom(names, content, i + 1, acc + [(names[i], JValue(JString(content[i])))])
  }

  /** The object one data line becomes under the header. */
  function RowObject(header: seq<string>, content: seq<string>): Result<Json, Exception>
  {
    RowFrom(TrimmedHeader(header), content, 0, [])
  }

  /** The row loop of `CsvToJson`: one `Add` per header cell, in header order. */
  method BuildRow(header: seq<string>, content: seq<string>) returns (r: Result<Json, Exception>)
    ensures r == RowObject(header, content)
  {
    ghost var names := TrimmedHeader(header);
    assert |names| == |header|;
    var props: seq<(string, Json)> := [];
    for i := 0 to |header|
      invariant RowFrom(names, content, i, props) == RowObject(header, content)
    {
      ghost var step := RowFrom(names, content, i, props);
      RowStep(names, content, i, props);
      if i >= |content| {
        return Failure(Framework(IndexOutOfRangeException));
      }
      var name := Trim(header[i]);
      assert name == names[i];
      if name in Keys(props) {
        return Failure(Framework(ArgumentException(AddPropertyMessage(name))));
      }
      props := props + [(name, JValue(JString(content[i])))];
      assert step == RowFrom(names, content, i + 1, props);
    }
    assert RowFrom(names, content, |names|, props) == Result.Success(JObject(props));
    return Result.Success(JObject(props));
  }

  /** One step of the row loop. */
  lemma RowStep(names: seq<string>, content: seq<string>, i: nat, acc: seq<(string, Json)>)
    requires i < |names|
    ensures RowFrom(names, content, i, acc) ==
      if i >= |content| then Failure(Framework(IndexOutOfRangeException))
      else if names[i] in Keys(acc) then Failure(Framework(ArgumentException(AddPropertyMessage(names[i]))))
      else RowFrom(names, content, i + 1, acc + [(names[i], JValue(JString(content[i])))])
  {
  }

  /** The first `i` properties of the row: each name with the cell below it. */
  predicate RowSoFar(names: seq<string>, content: seq<string>, i: nat, acc: seq<(string, Json)>)
    requires i <= |names|
  {
    && i <= |content| && DistinctPrefix(names, i) && |acc| == i
    && forall a :: 0 <= a < i ==> acc[a] == (names[a], JValue(JString(content[a])))
  }

  /** A name that is new extends the properties so far by one. */
  lemma RowSoFarStep(names: seq<string>, content: seq<string>, i: nat, acc: seq<(string, Json)>)
    requires i < |names| && i < |content| && RowSoFar(names, content, i, acc)
    requires names[i] !in Keys(acc)
    ensures RowSoFar(names, content, i + 1, acc + [(names[i], JValue(JString(content[i])))])
  {
    forall a | 0 <= a < i ensures names[a] != names[i] {
      assert Keys(acc)[a] == names[a];
    }
  }

  /** The properties of a row that succeeds. */
  function RowProperties(names: seq<string>, content: seq<string>): (ps: seq<(string, Json)>)
    requires |names| <= |content|
  {
    seq(|names|, i requires 0 <= i < |names| => (names[i], JValue(JString(content[i]))))
  }

  /** The row loop succeeds, from any point where the properties so far are right, exactly when the row is long enough and the names distinct. */
  lemma {:induction false} RowFromSuccess(names: seq<string>, content: seq<string>, i: nat, acc: seq<(string, Json)>)
    requires i <= |names| && RowSoFar(names, content, i, acc)
    ensures var r := RowFrom(names, content, i, acc);
      && (r.Success? <==> |names| <= |content| && DistinctPrefix(names, |names|))
      && (r.Success? ==> r == Result.Success(JObject(RowProperties(names, content))))
    decreases |names| - i
  {
    if i < |names| {
      RowStep(names, content, i, acc);
      if i < |content| && names[i] !in Keys(acc) {
        RowSoFarStep(names, content, i, acc);
        RowFromSuccess(names, content, i + 1, acc + [(names[i], JValue(JString(content[i])))]);
      } else if i < |content| {
        DuplicateAt(names, content, i, acc);
      }
    } else {
      assert acc == RowProperties(names, content);
    }
  }

  /** A name already among the properties so far repeats an earlier header cell. */
  lemma DuplicateAt(names: seq<string>, content: seq<string>, i: nat, acc: seq<(string, Json)>)
    requires i < |names| && RowSoFar(names, content, i, acc) && names[i] in Keys(acc)
    ensures exists a :: 0 <= a < i && names[a] == names[i]
  {
    var a :| 0 <= a < i && Keys(acc)[a] == names[i];
    assert names[a] == names[i];
  }

  /**
   * The row loop fails out of range, from any point where the properties so far are right,
   * exactly when the row is short and no name repeats before its end.
   */
  lemma {:induction false} RowFromOutOfRange(names: seq<string>, content: seq<string>, i: nat, acc: seq<(string, Json)>)
    requires i <= |names| && RowSoFar(names, content, i, acc)
    ensures RowFrom(names, content, i, acc) == Failure(Framework(IndexOutOfRangeException)) <==>
      |content| < |names| && DistinctPrefix(names, |content|)
    decreases |names| - i
  {
    if i < |names| {
      RowStep(names, content, i, acc);
      if i < |content| && names[i] !in Keys(acc) {
        RowSoFarStep(names, content, i, acc);
        RowFromOutOfRange(names, content, i + 1, acc + [(names[i], JValue(JString(content[i])))]);
      } else if i < |content| {
        DuplicateAt(names, content, i, acc);
        var a :| 0 <= a < i && names[a] == names[i];
        assert |content| < |names| ==> !DistinctPrefix(names, |content|);
      } else {
        assert i == |content|;
      }
    }
  }

  /**
   * The row loop fails otherwise than out of range, from any point where the properties so
   * far are right, only naming the second occurrence of a repeated name.
   */
  lemma {:induction false} RowFromDuplicate(names: seq<string>, content: seq<string>, i: nat, acc: seq<(string, Json)>)
    requires i <= |names| && RowSoFar(names, content, i, acc)
    ensures var r := RowFrom(names, content, i, acc);
      r.Failure? && r.error != Framework(IndexOutOfRangeException) ==>
        exists a, b :: 0 <= a < b < |names| && names[a] == names[b] &&
          r.error == Framework(ArgumentException(AddPropertyMessage(names[b])))
    decreases |names| - i
  {
    if i < |names| {
      RowStep(names, content, i, acc);
      if i < |content| && names[i] !in Keys(acc) {
        RowSoFarStep(names, content, i, acc);
        RowFromDuplicate(names, content, i + 1, acc + [(names[i], JValue(JString(content[i])))]);
      } else if i < |content| {
        DuplicateAt(names, content, i, acc);
      }
    }
  }

  /**
   * A row succeeds exactly when it has at least as many cells as the header and the trimmed
   * header cells are distinct; its properties are then the trimmed header cells in order,
   * each with the cell below it as a string, and cells past the header are ignored. A short
   * row fails out of range unless a repeated name comes first; a repeated name fails naming
   * its second occurrence.
   */
  lemma RowObjectShape(header: seq<string>, content: seq<string>)
    ensures var r := RowObject(header, content);
      var names := TrimmedHeader(header);
      && (r.Success? <==> |header| <= |content| && DistinctPrefix(names, |header|))
      && (r.Success? ==> r == Result.Success(JObject(RowProperties(names, content))))
      && (r == Failure(Framework(IndexOutOfRangeException)) <==>
            |content| < |header| && DistinctPrefix(names, |content|))
      && (r.Failure? && r.error != Framework(IndexOutOfRangeException) ==>
            exists a, b :: 0 <= a < b < |header| && names[a] == names[b] &&
              r.error == Framework(ArgumentException(AddPropertyMessage(names[b]))))
  {
    RowFromSuccess(TrimmedHeader(header), content, 0, []);
    RowFromOutOfRange(TrimmedHeader(header), content, 0, []);
    RowFromDuplicate(TrimmedHeader(header), content, 0, []);
  }

  // ---------------------------------------------------------------- the whole text

  /**
   * The objects for `lines`, `header` being the header read so far: blank lines are
   * skipped, the first other line is the header, each later one a row. The first row that
   * fails decides the exception.
   */
  function CsvRows(lines: seq<string>, header: Option<seq<string>>): Result<seq<Json>, Exception>
  {
    if lines == [] then Result.Success([])
    else if AllWhiteSpace(lines[0]) then CsvRows(lines[1..], header)
    else
      var content := CsvLineToArray(lines[0]);
      if header.None? then CsvRows(lines[1..], Some(content))
      else
        var obj :- RowObject(header.value, content);
        var rest :- CsvRows(lines[1..], header);
        Result.Success([obj] + rest)
  }

  /** The array `CsvToJson` builds in `jArray`: the row objects, before it is written out. */
  function CsvArray(lines: seq<string>): Result<Json, Exception>
  {
    var rows :- CsvRows(lines, None);
    Result.Success(JArray(rows))
  }

  /**
   * The value `CsvToJson` converts to the element type: the built array written out by
   * `jArray.ToString()` (`render`) and read back by `DeserializeObject`, whose step from text
   * to tokens is `lexer`.
   */
  function CsvToJsonValue(lines: seq<string>, render: Json -> string, lexer: string -> seq<Token>): Result<Json, Exception>
  {
    var arr :- CsvArray(lines);
    Raised(Deserialize(lexer(render(arr))))
  }

  /** `rows` followed by what `r` yields, or `r`'s failure. */
  function Prepend(rows: seq<Json>, r: Result<seq<Json>, Exception>): Result<seq<Json>, Exception>
  {
    match r
    case Success(rest) => Result.Success(rows + rest)
    case Failure(e) => Failure(e)
  }

  lemma PrependNothing(r: Result<seq<Json>, Exception>)
    ensures Prepend([], r) == r
  {
    if r.Success? {
      assert [] + r.value == r.value;
    }
  }

  lemma PrependSnoc(rows: seq<Json>, obj: Json, r: Result<seq<Json>, Exception>)
    ensures Prepend(rows, Prepend([obj], r)) == Prepend(rows + [obj], r)
  {
    if r.Success? {
      assert rows + ([obj] + r.value) == rows + [obj] + r.value;
    }
  }

  /** An object built from one row: distinct names, each holding a string. */
  predicate IsRow(j: Json) {
    && j.JObject? && UniqueKeys(j.props)
    && forall i :: 0 <= i < |j.props| ==> j.props[i].1.JValue? && j.props[i].1.v.JString?
  }

  lemma RowObjectIsRow(header: seq<string>, content: seq<string>)
    requires RowObject(header, content).Success?
    ensures IsRow(RowObject(header, content).value)
  {
    RowObjectShape(header, content);
    var names := TrimmedHeader(header);
    var ps := RowProperties(names, content);
    forall a, b | 0 <= a < b < |ps| ensures ps[a].0 != ps[b].0 {
      assert ps[a].0 == names[a] && ps[b].0 == names[b];
    }
  }

  /**
   * The tokens of an array of rows go through the duplicate-rejecting rebuild unchanged: the
   * names of a row are distinct, so the rebuild never refuses them.
   */
  lemma RowsDecode(objs: seq<Json>)
    requires forall k :: 0 <= k < |objs| ==> IsRow(objs[k])
    ensures Raised(Deserialize(Tokens(JArray(objs)))) == Result.Success(JArray(objs))
  {
    forall k | 0 <= k < |objs| ensures Strict(objs[k]) {
      var ps := objs[k].props;
      assert forall i :: 0 <= i < |ps| ==> Strict(ps[i].1);
    }
    NonDuplicatesOfTokens(JArray(objs), []);
    assert Tokens(JArray(objs)) + [] == Tokens(JArray(objs));
  }

  /** `CsvToJson(string[] lines)` up to the conversion to the element type. */
  method CsvLinesToJson(lines: seq<string>, render: Json -> string, lexer: string -> seq<Token>) returns (r: Result<Json, Exception>)
    ensures r == CsvToJsonValue(lines, render, lexer)
  {
    var header: Option<seq<string>> := None;
    var objs: seq<Json> := [];
    assert lines[0..] == lines;
    PrependNothing(CsvRows(lines, None));
    for i := 0 to |lines|
      invariant Prepend(objs, CsvRows(lines[i..], header)) == CsvRows(lines, None)
    {
      RowsAt(lines, i, header);
      if AllWhiteSpace(lines[i]) {
        continue;
      }
      var content := CsvLineToArray(lines[i]);
      if header.None? {
        header := Some(content);
      } else {
        var row := BuildRow(header.value, content);
        if row.Failure? {
          assert CsvRows(lines[i..], header) == Failure(row.error);
          return Failure(row.error);
        }
        PrependSnoc(objs, row.value, CsvRows(lines[i + 1..], header));
        objs := objs + [row.value];
      }
    }
    assert lines[|lines|..] == [] && objs + [] == objs;
    var text := render(JArray(objs));
    r := DeserializeNonDuplicates(lexer(text));
  }

  /** Every row that the lines give is a row object. */
  lemma {:induction false} RowsAreRows(lines: seq<string>, header: Option<seq<string>>)
    requires CsvRows(lines, header).Success?
    ensures var r := CsvRows(lines, header).value;
      forall k :: 0 <= k < |r| ==> IsRow(r[k])
    decreases |lines|
  {
    if lines != [] {
      RowsAt(lines, 0, header);
      assert lines[0..] == lines;
      if AllWhiteSpace(lines[0]) {
        RowsAreRows(lines[1..], header);
      } else if header.None? {
        RowsAreRows(lines[1..], Some(CsvLineToArray(lines[0])));
      } else {
        var o, rest := RowsHead(lines, header.value);
        RowObjectIsRow(header.value, CsvLineToArray(lines[0]));
        RowsAreRows(lines[1..], header);
        ConsRows(o, rest);
      }
    }
  }

  lemma ConsRows(o: Json, rest: seq<Json>)
    requires IsRow(o) && forall k :: 0 <= k < |rest| ==> IsRow(rest[k])
    ensures forall k :: 0 <= k < |[o] + rest| ==> IsRow(([o] + rest)[k])
  {
  }

  /**
   * Read back as its own tokens, the written array is the built array: when the library's
   * reader turns the text of the array into the array's tokens (in particular, takes no
   * string cell for a date), `CsvToJson` gives exactly the rows it built.
   */
  lemma CsvToJsonRereads(lines: seq<string>, render: Json -> string, lexer: string -> seq<Token>)
    requires CsvArray(lines).Success? ==> lexer(render(CsvArray(lines).value)) == Tokens(CsvArray(lines).value)
    ensures CsvToJsonValue(lines, render, lexer) == CsvArray(lines)
  {
    if CsvRows(lines, None).Success? {
      RowsAreRows(lines, None);
      RowsDecode(CsvRows(lines, None).value);
    }
  }

  /** The rows from line `i` on, one line unfolded. */
  lemma RowsAt(lines: seq<string>, i: nat, header: Option<seq<string>>)
    requires i < |lines|
    ensures CsvRows(lines[i..], header) ==
      if AllWhiteSpace(lines[i]) then CsvRows(lines[i + 1..], header)
      else if header.None? then CsvRows(lines[i + 1..], Some(CsvLineToArray(lines[i])))
      else
        var o := RowObject(header.value, CsvLineToArray(lines[i]));
        if o.Failure? then Failure(o.error) else Prepend([o.value], CsvRows(lines[i + 1..], header))
  {
    assert lines[i..][0] == lines[i] && lines[i..][1..] == lines[i + 1..];
  }

  /** `CsvToJson(string text)`: the text cut into lines at `"\r\n"` or `"\n"`. */
  method CsvTextToJson(text: string, render: Json -> string, lexer: string -> seq<Token>) returns (r: Result<Json, Exception>)
    ensures r == CsvToJsonValue(SplitLines(text), render, lexer)
  {
    r := CsvLinesToJson(SplitLines(text), render, lexer);
  }

  /** The lines that are not blank, in order. */
  function NonBlank(lines: seq<string>): (r: seq<string>)
    ensures forall k :: 0 <= k < |r| ==> !AllWhiteSpace(r[k])
  {
    if lines == [] then []
    else if AllWhiteSpace(lines[0]) then NonBlank(lines[1..])
    else [lines[0]] + NonBlank(lines[1..])
  }

  /** Blank lines play no part: only the lines that are not blank are read. */
  lemma {:induction false} RowsOfNonBlank(lines: seq<string>, header: Option<seq<string>>)
    ensures CsvRows(lines, header) == CsvRows(NonBlank(lines), header)
    decreases |lines|
  {
    if lines != [] {
      RowsOfNonBlank(lines[1..], header);
      if !AllWhiteSpace(lines[0]) {
        var content := CsvLineToArray(lines[0]);
        var nb := NonBlank(lines);
        assert nb[0] == lines[0] && nb[1..] == NonBlank(lines[1..]);
        RowsOfNonBlank(lines[1..], Some(content));
      }
    }
  }

  /** Under a header, lines none of which is blank give objects exactly when every one of them gives an object. */
  lemma {:induction false} RowsSucceed(lines: seq<string>, header: seq<string>)
    requires forall k :: 0 <= k < |lines| ==> !AllWhiteSpace(lines[k])
    ensures CsvRows(lines, Some(header)).Success? <==>
      forall k :: 0 <= k < |lines| ==> RowObject(header, CsvLineToArray(lines[k])).Success?
    decreases |lines|
  {
    if lines != [] {
      var tail := lines[1..];
      assert forall k :: 0 <= k < |tail| ==> tail[k] == lines[k + 1];
      RowsSucceed(tail, header);
      RowsCons(lines, header);
      assert forall k :: 1 <= k < |lines| ==> tail[k - 1] == lines[k];
    }
  }

  /** Under a header, lines none of which is blank that do give objects give one each, in order. */
  lemma {:induction false} RowsInOrder(lines: seq<string>, header: seq<string>)
    requires forall k :: 0 <= k < |lines| ==> !AllWhiteSpace(lines[k])
    requires CsvRows(lines, Some(header)).Success?
    ensures var r := CsvRows(lines, Some(header)).value;
      && |r| == |lines|
      && forall k :: 0 <= k < |lines| ==> Result.Success(r[k]) == RowObject(header, CsvLineToArray(lines[k]))
    decreases |lines|
  {
    if lines != [] {
      var tail := lines[1..];
      var o, rest := RowsHead(lines, header);
      assert forall k :: 0 <= k < |tail| ==> tail[k] == lines[k + 1];
      RowsInOrder(tail, header);
      var r := [o] + rest;
      forall k | 0 <= k < |lines|
        ensures Result.Success(r[k]) == RowObject(header, CsvLineToArray(lines[k]))
      {
        if k > 0 {
          assert tail[k - 1] == lines[k] && r[k] == rest[k - 1];
        }
      }
    }
  }

  /** Rows that succeed: the first line's object leads, and the rest succeed too. */
  lemma RowsHead(lines: seq<string>, header: seq<string>) returns (o: Json, rest: seq<Json>)
    requires lines != [] && !AllWhiteSpace(lines[0])
    requires CsvRows(lines, Some(header)).Success?
    ensures RowObject(header, CsvLineToArray(lines[0])) == Result.Success(o)
    ensures CsvRows(lines[1..], Some(header)) == Result.Success(rest)
    ensures CsvRows(lines, Some(header)) == Result.Success([o] + rest)
  {
    RowsCons(lines, header);
    o := RowObject(header, CsvLineToArray(lines[0])).value;
    rest := CsvRows(lines[1..], Some(header)).value;
  }

  /** One line that is not blank, under a header: its object, then the objects of the rest. */
  lemma RowsCons(lines: seq<string>, header: seq<string>)
    requires lines != [] && !AllWhiteSpace(lines[0])
    ensures var o := RowObject(header, CsvLineToArray(lines[0]));
      CsvRows(lines, Some(header)) ==
        if o.Failure? then Failure(o.error) else Prepend([o.value], CsvRows(lines[1..], Some(header)))
  {
  }

  /** Lines that are all blank, or no lines at all, build the empty array and never fail. */
  lemma {:induction false} CsvToJsonAllBlank(lines: seq<string>)
    requires NonBlank(lines) == []
    ensures CsvArray(lines) == Result.Success(JArray([]))
  {
    RowsOfNonBlank(lines, None);
  }

  /** A header and nothing else below it also builds the empty array. */
  lemma {:induction false} CsvToJsonHeaderOnly(lines: seq<string>)
    requires |NonBlank(lines)| == 1
    ensures CsvArray(lines) == Result.Success(JArray([]))
  {
    CsvToJsonShape(lines);
    assert NonBlank(lines)[1..] == [];
  }

  /**
   * `CsvToJson` on lines: the first line that is not blank is the header, and every later
   * one that is not blank becomes one object, in order.
   */
  lemma CsvToJsonShape(lines: seq<string>)
    requires NonBlank(lines) != []
    ensures var nb := NonBlank(lines);
      CsvArray(lines) == CsvArray([nb[0]] + nb[1..]) &&
      CsvRows(lines, None) == CsvRows(nb[1..], Some(CsvLineToArray(nb[0])))
  {
    var nb := NonBlank(lines);
    RowsOfNonBlank(lines, None);
    assert nb == [nb[0]] + nb[1..];
    assert ([nb[0]] + nb[1..])[1..] == nb[1..];
  }
}
