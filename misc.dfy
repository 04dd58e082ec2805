/**
 * The dictionary loading and line conversion logic of src/main/kotlin/misc/Misc.kt,
 * over a file's lines given as a sequence of strings.
 */
module Misc {
  import opened Wrappers
  import opened KotlinText
  import opened KotlinCollections
  import opened SpeechParts

  /** A word mapped to its part of speech. */
  type Dictionary = map<string, SpeechPart>

  /** `Array.map(transform)`: a new array filled index by index. */
  method MapArray<T, R>(a: array<T>, transform: T -> R) returns (b: array<R>)
    ensures fresh(b) && b.Length == a.Length
    ensures forall i | 0 <= i < a.Length :: b[i] == transform(a[i])
  {
    b := new R[a.Length](i requires 0 <= i < a.Length reads a => transform(a[i]));
  }

  /** `findOrDefault(default, predicate)`: the first element that `matches`, else `fallback`. */
  function FindOrDefault<T>(xs: seq<T>, fallback: T, matches: T -> bool): (r: T)
    ensures (forall k | 0 <= k < |xs| :: !matches(xs[k])) ==> r == fallback
    ensures (exists k | 0 <= k < |xs| :: matches(xs[k])) ==>
      exists k | 0 <= k < |xs| :: r == xs[k] && matches(xs[k]) && forall j | 0 <= j < k :: !matches(xs[j])
  {
    if |xs| == 0 then fallback
    else if matches(xs[0]) then xs[0]
    else
      var r := FindOrDefault(xs[1..], fallback, matches);
      assert forall k | 1 <= k < |xs| :: xs[k] == xs[1..][k - 1];
      r
  }

  // ---------------------------------------------------------------------------
  // dicUkFormatToUsableFormat

  /** The inner `toTuple`: a line must have exactly three space-separated fields; the first and third are kept. */
  function ToTuple(str: string): (r: Result<(string, string), string>)
    ensures r.Failure? ==> r.error == "Invalid line was found=" + str
  {
    var split := Split(str, ' ');
    if |split| != 3 then Failure("Invalid line was found=" + str) else Success((split[0], split[2]))
  }

  /** A line of three space-free fields yields its first and third. */
  lemma ToTupleOfFields(a: string, b: string, c: string)
    requires ' ' !in a && ' ' !in b && ' ' !in c
    ensures ToTuple(a + " " + b + " " + c) == Success((a, c))
  {
    JoinThree(a, b, c);
    SplitJoin([a, b, c], ' ');
  }

  lemma JoinThree(a: string, b: string, c: string)
    ensures JoinToString([a, b, c], [' ']) == a + " " + b + " " + c
  {
    var fields := [a, b, c];
    assert fields[1..] == [b, c];
    assert fields[1..][1..] == [c];
    assert JoinToString(fields[1..], [' ']) == b + [' '] + c;
    assert JoinToString(fields, [' ']) == a + [' '] + (b + [' '] + c);
  }

  /** Any other number of fields is rejected. */
  lemma ToTupleRejects(fields: seq<string>)
    requires |fields| > 0 && |fields| != 3
    requires forall k | 0 <= k < |fields| :: ' ' !in fields[k]
    ensures ToTuple(JoinToString(fields, " ")).Failure?
  {
    SplitJoin(fields, ' ');
  }

  /** A line-to-fields conversion; `dicUkFormatToUsableFormat` uses `ToTuple`, and the fold's lemmas hold for any. */
  type LineSplitter = string -> Result<(string, string), string>

  /** What the writer received and, if a line was rejected, the exception's message. */
  datatype Conversion = Conversion(written: seq<string>, failure: Option<string>)

  /**
   * The `forEach` over the surviving lines: each tuple is written as it is
   * produced, so a rejected line leaves the lines before it written.
   */
  function ConvertLines(lines: seq<string>, toTuple: LineSplitter): (c: Conversion)
    ensures |c.written| <= |lines|
    ensures c.failure.None? ==> |c.written| == |lines|
  {
    if |lines| == 0 then Conversion([], None)
    else
      match toTuple(lines[0])
      case Failure(e) => Conversion([], Some(e))
      case Success((word, data)) =>
        var rest := ConvertLines(lines[1..], toTuple);
        Conversion([word + " " + data] + rest.written, rest.failure)
  }

  /** The lines `dicUkFormatToUsableFormat` converts: all but the first (the header), without blank ones. */
  function ConvertedLines(lines: seq<string>): seq<string> {
    Filter(if |lines| == 0 then [] else lines[1..], IsNotEmptyNotBlank)
  }

  /** `File.dicUkFormatToUsableFormat(out)`: the surviving lines go through `toTuple` and are written. */
  method DicUkFormatToUsableFormat(lines: seq<string>) returns (written: seq<string>, failure: Option<string>)
    ensures Conversion(written, failure) == ConvertLines(ConvertedLines(lines), ToTuple)
  {
    written, failure := WriteTuples(ConvertedLines(lines), ToTuple);
  }

  /** The `map(::toTuple).forEach { append }` chain, writing line by line until a line is rejected. */
  method WriteTuples(source: seq<string>, toTuple: LineSplitter) returns (written: seq<string>, failure: Option<string>)
    ensures Conversion(written, failure) == ConvertLines(source, toTuple)
  {
    written := [];
    failure := None;
    var i := 0;
    assert source[0..] == source;
    while i < |source|
      invariant 0 <= i <= |source|
      invariant ConvertLines(source, toTuple) ==
        Conversion(written + ConvertLines(source[i..], toTuple).written, ConvertLines(source[i..], toTuple).failure)
    {
      ConvertStep(source, i, toTuple);
      var t := toTuple(source[i]);
      if t.Failure? {
        failure := Some(t.error);
        return;
      }
      var line := t.value.0 + " " + t.value.1;
      ghost var next := ConvertLines(source[i + 1..], toTuple);
      assert written + ([line] + next.written) == (written + [line]) + next.written;
      written := written + [line];
      i := i + 1;
    }
    assert source[i..] == [];
  }

  /** One step of `ConvertLines` at position `i`. */
  lemma ConvertStep(source: seq<string>, i: nat, toTuple: LineSplitter)
    requires i < |source|
    ensures var t := toTuple(source[i]);
      && (t.Failure? ==> ConvertLines(source[i..], toTuple) == Conversion([], Some(t.error)))
      && (t.Success? ==>
            ConvertLines(source[i..], toTuple) ==
            Conversion([t.value.0 + " " + t.value.1] + ConvertLines(source[i + 1..], toTuple).written,
                       ConvertLines(source[i + 1..], toTuple).failure))
  {
    assert source[i..][0] == source[i];
    assert source[i..][1..] == source[i + 1..];
  }

  /**
   * Every written line holds the two fields `toTuple` gives for its source
   * line (with `ToTuple`, the first and the third), with one space between;
   * a failure reports the first rejected line, and everything before it has
   * been written.
   */
  lemma {:induction false} ConvertLinesSpec(lines: seq<string>, toTuple: LineSplitter)
    ensures var c := ConvertLines(lines, toTuple);
      && |c.written| <= |lines|
      && (c.failure.None? <==> forall k | 0 <= k < |lines| :: toTuple(lines[k]).Success?)
      && (forall k | 0 <= k < |c.written| :: WrittenFrom(toTuple(lines[k]), c.written[k]))
      && (c.failure.None? ==> |c.written| == |lines|)
      && (c.failure.Some? ==> RejectedAt(lines, |c.written|, c.failure.value, toTuple))
  {
    if |lines| > 0 {
      ConvertLinesSpec(lines[1..], toTuple);
      var c := ConvertLines(lines, toTuple);
      var rest := ConvertLines(lines[1..], toTuple);
      if toTuple(lines[0]).Success? {
        assert forall k | 1 <= k < |lines| :: lines[k] == lines[1..][k - 1];
        assert forall k | 1 <= k < |c.written| :: c.written[k] == rest.written[k - 1];
        if c.failure.Some? {
          assert lines[|c.written|] == lines[1..][|rest.written|];
        }
      }
    }
  }

  /** `written` is the two fields of a converted line, with one space between. */
  predicate WrittenFrom(fields: Result<(string, string), string>, written: string) {
    fields.Success? && written == fields.value.0 + " " + fields.value.1
  }

  /** Line `k` is the one rejected, with `message`. */
  predicate RejectedAt(lines: seq<string>, k: nat, message: string, toTuple: LineSplitter) {
    k < |lines| && toTuple(lines[k]).Failure? && message == toTuple(lines[k]).error
  }

  /** A written line splits back into the two fields it was made of. */
  lemma WrittenLineSplits(line: string)
    requires ToTuple(line).Success?
    ensures var (word, data) := ToTuple(line).value;
      ' ' !in word && ' ' !in data && Split(word + " " + data, ' ') == [word, data]
  {
    SplitSegmentsLackDelimiter(line, ' ');
    var (word, data) := ToTuple(line).value;
    SplitJoin([word, data], ' ');
    assert [word, data][1..] == [data];
  }

  // ---------------------------------------------------------------------------
  // parseDictionary and loadDictionary

  /** Why loading a dictionary failed. */
  datatype LoadError =
    | ParseFailure(file: string, line: string, position: nat, cause: ParseError)  // a ParseException
    | Uncaught(cause: ParseError)  // an exception thrown by `fromInput` itself, passed on unwrapped
  {
    /** The message `parseException` builds, or the uncaught exception's own. */
    function Message(): string {
      match this
      case ParseFailure(file, line, position, _) =>
        "Failed to parse file " + file + ", line: " + line + ", position: " + NatToString(position)
      case Uncaught(cause) => cause.Message()
    }
  }

  /** A line parser; `parseDictionary` uses `SpeechPart.fromInput`, and the fold's lemmas hold for any. */
  type LineParser = string -> Result<SpeechPart, ParseError>

  /** The message names the file and the line, then ends with the position's decimal digits. */
  lemma ParseFailureMessage(file: string, line: string, position: nat, cause: ParseError)
    ensures var m := ParseFailure(file, line, position, cause).Message();
      var head := "Failed to parse file " + file + ", line: " + line + ", position: ";
      && |m| > |head| && m[..|head|] == head
      && (forall k | |head| <= k < |m| :: '0' <= m[k] <= '9')
      && DecimalValue(m[|head|..]) == position
  {
    var m := ParseFailure(file, line, position, cause).Message();
    var head := "Failed to parse file " + file + ", line: " + line + ", position: ";
    assert m == head + NatToString(position);
    assert m[|head|..] == NatToString(position);
  }

  /** The inner `parseLine(index, line)`: a returned Left becomes a ParseException at 1-based position. */
  function ParseLine(index: nat, line: string, file: string, parse: LineParser): (r: Result<SpeechPart, LoadError>)
    ensures r.Success? <==> parse(line).Success?
    ensures r.Failure? && r.error.ParseFailure? ==> r.error.line == line && r.error.position == index + 1
  {
    match parse(line)
    case Success(part) => Success(part)
    case Failure(e) => if e.Thrown() then Failure(Uncaught(e)) else Failure(ParseFailure(file, line, index + 1, e))
  }

  /** Parsed parts placed behind those already accumulated; a failure discards them. */
  function Prepend(acc: seq<SpeechPart>, r: Result<seq<SpeechPart>, LoadError>): Result<seq<SpeechPart>, LoadError> {
    match r
    case Success(ps) => Success(acc + ps)
    case Failure(e) => Failure(e)
  }

  /** The fold over the surviving lines from index `i` on, stopping at the first failure. */
  function ParseFrom(survivors: seq<string>, file: string, i: nat, parse: LineParser): (r: Result<seq<SpeechPart>, LoadError>)
    requires i <= |survivors|
    ensures r.Success? ==> |r.value| == |survivors| - i
    decreases |survivors| - i
  {
    if i == |survivors| then Success([])
    else
      match ParseLine(i, survivors[i], file, parse)
      case Failure(e) => Failure(e)
      case Success(p) => Prepend([p], ParseFrom(survivors, file, i + 1, parse))
  }

  /** The lines the parser sees: the empty and blank ones are dropped first. */
  function Survivors(lines: seq<string>): seq<string> {
    Filter(lines, IsNotEmptyNotBlank)
  }

  /** What `parseDictionary` returns for a file's lines. */
  function ParseDictionarySpec(lines: seq<string>, file: string): (r: Result<seq<SpeechPart>, LoadError>)
    ensures r.Success? ==> |r.value| == |Survivors(lines)|
  {
    ParseFrom(Survivors(lines), file, 0, FromInput)
  }

  /** `Sequence<String>.parseDictionary(file)`: the fold into a list with an early return. */
  method ParseDictionary(lines: seq<string>, file: string) returns (r: Result<seq<SpeechPart>, LoadError>)
    ensures r == ParseDictionarySpec(lines, file)
  {
    r := ParseSurvivors(Survivors(lines), file, FromInput);
  }

  /** The `withIndex().fold` over the surviving lines with `parse`, returning at the first failure. */
  method ParseSurvivors(survivors: seq<string>, file: string, parse: LineParser) returns (r: Result<seq<SpeechPart>, LoadError>)
    ensures r == ParseFrom(survivors, file, 0, parse)
  {
    var acc: seq<SpeechPart> := [];
    var index := 0;
    ghost var whole := ParseFrom(survivors, file, 0, parse);
    assert whole.Success? ==> [] + whole.value == whole.value;
    while index < |survivors|
      invariant 0 <= index <= |survivors|
      invariant whole == Prepend(acc, ParseFrom(survivors, file, index, parse))
    {
      match ParseLine(index, survivors[index], file, parse) {
        case Failure(e) =>
          return Failure(e);
        case Success(p) =>
          PrependPrepend(acc, [p], ParseFrom(survivors, file, index + 1, parse));
          acc := acc + [p];
      }
      index := index + 1;
    }
    assert acc + [] == acc;
    return Success(acc);
  }

  lemma PrependPrepend(a: seq<SpeechPart>, b: seq<SpeechPart>, r: Result<seq<SpeechPart>, LoadError>)
    ensures Prepend(a, Prepend(b, r)) == Prepend(a + b, r)
  {
    if r.Success? {
      assert a + (b + r.value) == (a + b) + r.value;
    }
  }

  /** A line parses when the parser accepts it; its failure is wrapped with its 1-based position unless it was thrown. */
  lemma ParseLineSpec(index: nat, line: string, file: string, parse: LineParser)
    ensures var r := ParseLine(index, line, file, parse);
      && (r.Success? <==> parse(line).Success?)
      && (r.Success? ==> r.value == parse(line).value)
      && (r.Failure? && !parse(line).error.Thrown() ==> r.error == ParseFailure(file, line, index + 1, parse(line).error))
      && (r.Failure? && parse(line).error.Thrown() ==> r.error == Uncaught(parse(line).error))
  {
  }

  /**
   * On success there is one part per surviving line, in line order;
   * success means every surviving line parses.
   */
  lemma {:induction false} ParseFromSuccess(survivors: seq<string>, file: string, i: nat, parse: LineParser)
    requires i <= |survivors|
    ensures ParseFrom(survivors, file, i, parse).Success? <==>
      forall k | i <= k < |survivors| :: parse(survivors[k]).Success?
    ensures ParseFrom(survivors, file, i, parse).Success? ==>
      var parts := ParseFrom(survivors, file, i, parse).value;
      |parts| == |survivors| - i && forall k | 0 <= k < |parts| :: parts[k] == parse(survivors[i + k]).value
    decreases |survivors| - i
  {
    if i < |survivors| {
      ParseFromSuccess(survivors, file, i + 1, parse);
      var r := ParseFrom(survivors, file, i, parse);
      if r.Success? {
        var rest := ParseFrom(survivors, file, i + 1, parse).value;
        assert r.value == [parse(survivors[i]).value] + rest;
        forall k | 1 <= k < |r.value| ensures r.value[k] == parse(survivors[i + k]).value {
          assert r.value[k] == rest[k - 1];
        }
      }
    }
  }

  /**
   * On failure the error is the one of the first surviving line that does not
   * parse, reported for that line at its position among surviving lines.
   */
  lemma {:induction false} ParseFromFailure(survivors: seq<string>, file: string, i: nat, parse: LineParser)
    requires i <= |survivors|
    ensures ParseFrom(survivors, file, i, parse).Failure? ==>
      exists k | i <= k < |survivors| ::
        && parse(survivors[k]).Failure?
        && (forall j | i <= j < k :: parse(survivors[j]).Success?)
        && ParseFrom(survivors, file, i, parse).error == ParseLine(k, survivors[k], file, parse).error
    decreases |survivors| - i
  {
    if i < |survivors| && parse(survivors[i]).Success? {
      ParseFromFailure(survivors, file, i + 1, parse);
    }
  }

  /** The failure of a malformed dictionary names the first bad surviving line, its text and its position. */
  lemma ParseDictionaryFailure(lines: seq<string>, file: string)
    ensures var r := ParseDictionarySpec(lines, file);
      var s := Survivors(lines);
      r.Failure? ==> exists k | 0 <= k < |s| ::
        && (forall j | 0 <= j < k :: FromInput(s[j]).Success?)
        && FromInput(s[k]).Failure?
        && (!FromInput(s[k]).error.Thrown() ==> r.error == ParseFailure(file, s[k], k + 1, FromInput(s[k]).error))
        && (FromInput(s[k]).error.Thrown() ==> r.error == Uncaught(FromInput(s[k]).error))
  {
    FirstFailure(Survivors(lines), file, FromInput);
  }

  /** `ParseDictionaryFailure` for any line parser. */
  lemma FirstFailure(s: seq<string>, file: string, parse: LineParser)
    ensures var r := ParseFrom(s, file, 0, parse);
      r.Failure? ==> exists k | 0 <= k < |s| ::
        && (forall j | 0 <= j < k :: parse(s[j]).Success?)
        && parse(s[k]).Failure?
        && (!parse(s[k]).error.Thrown() ==> r.error == ParseFailure(file, s[k], k + 1, parse(s[k]).error))
        && (parse(s[k]).error.Thrown() ==> r.error == Uncaught(parse(s[k]).error))
  {
    ParseFromFailure(s, file, 0, parse);
    var r := ParseFrom(s, file, 0, parse);
    if r.Failure? {
      var k :| 0 <= k < |s| && parse(s[k]).Failure?
        && (forall j | 0 <= j < k :: parse(s[j]).Success?)
        && r.error == ParseLine(k, s[k], file, parse).error;
      ParseLineSpec(k, s[k], file, parse);
    }
  }

  /** On success the parts are those of the surviving lines, one each, in line order. */
  lemma ParseDictionarySuccess(lines: seq<string>, file: string)
    ensures var r := ParseDictionarySpec(lines, file);
      var s := Survivors(lines);
      && (r.Success? <==> forall k | 0 <= k < |s| :: FromInput(s[k]).Success?)
      && (r.Success? ==> |r.value| == |s| && forall k | 0 <= k < |s| :: r.value[k] == FromInput(s[k]).value)
  {
    var s := Survivors(lines);
    var r := ParseFrom(s, file, 0, FromInput);
    ParseFromSuccess(s, file, 0, FromInput);
    assert r.Success? <==> forall k | 0 <= k < |s| :: FromInput(s[k]).Success?;
    if r.Success? {
      forall k | 0 <= k < |s| ensures r.value[k] == FromInput(s[k]).value {
        assert s[0 + k] == s[k];
      }
    }
  }

  /** Fail-fast: once a prefix of the file fails, no later line changes the outcome. */
  lemma ParseDictionaryFailFast(pre: seq<string>, post: seq<string>, file: string)
    requires ParseDictionarySpec(pre, file).Failure?
    ensures ParseDictionarySpec(pre + post, file) == ParseDictionarySpec(pre, file)
  {
    FilterAppend(pre, post, IsNotEmptyNotBlank);
    ParseFromExtended(Survivors(pre), Survivors(post), file, 0, FromInput);
  }

  lemma {:induction false} ParseFromExtended(s: seq<string>, t: seq<string>, file: string, i: nat, parse: LineParser)
    requires i <= |s| && ParseFrom(s, file, i, parse).Failure?
    ensures ParseFrom(s + t, file, i, parse) == ParseFrom(s, file, i, parse)
    decreases |s| - i
  {
    assert (s + t)[i] == s[i];
    if parse(s[i]).Success? {
      ParseFromExtended(s, t, file, i + 1, parse);
    }
  }

  /** A blank or empty line anywhere in the file changes nothing, positions included. */
  lemma BlankLineIgnored(a: seq<string>, blank: string, c: seq<string>, file: string)
    requires IsBlank(blank)
    ensures ParseDictionarySpec(a + [blank] + c, file) == ParseDictionarySpec(a + c, file)
  {
    FilterAppend(a + [blank], c, IsNotEmptyNotBlank);
    FilterAppend(a, [blank], IsNotEmptyNotBlank);
    FilterAppend(a, c, IsNotEmptyNotBlank);
    assert Filter([blank], IsNotEmptyNotBlank) == [];
    assert Survivors(a + [blank]) == Survivors(a);
  }

  /** `foldLeft(HashMap()) { acc, part -> acc.put(part) }`: each part stored under its word, later ones overwriting. */
  function ToDictionary(parts: seq<SpeechPart>): (d: Dictionary)
    ensures d.Keys == set k | 0 <= k < |parts| :: parts[k].word
    ensures forall w | w in d :: d[w].word == w
  {
    if |parts| == 0 then map[]
    else
      var last := parts[|parts| - 1];
      var init := parts[..|parts| - 1];
      var d := ToDictionary(init);
      assert forall k | 0 <= k < |init| :: init[k] == parts[k];
      assert (set k | 0 <= k < |parts| :: parts[k].word) == (set k | 0 <= k < |init| :: init[k].word) + {last.word};
      d[last.word := last]
  }

  /** Last write wins: a word maps to the last part in the list with that word. */
  lemma {:induction false} LastWriteWins(parts: seq<SpeechPart>, k: nat)
    requires k < |parts|
    requires forall j | k < j < |parts| :: parts[j].word != parts[k].word
    ensures ToDictionary(parts)[parts[k].word] == parts[k]
  {
    if k < |parts| - 1 {
      var init := parts[..|parts| - 1];
      assert init[k] == parts[k];
      assert forall j | k < j < |init| :: init[j] == parts[j];
      LastWriteWins(init, k);
    }
  }

  /** What `loadDictionary` yields for a file's lines. */
  function LoadDictionarySpec(lines: seq<string>, file: string): (r: Result<Dictionary, LoadError>)
    ensures r.Success? <==> ParseDictionarySpec(lines, file).Success?
    ensures r.Failure? ==> r.error == ParseDictionarySpec(lines, file).error
    ensures r.Success? ==> r.value == ToDictionary(ParseDictionarySpec(lines, file).value)
    ensures r.Success? ==>
      r.value.Keys == (set k | 0 <= k < |ParseDictionarySpec(lines, file).value| :: ParseDictionarySpec(lines, file).value[k].word)
    ensures r.Success? ==> forall w | w in r.value :: r.value[w].word == w
  {
    match ParseDictionarySpec(lines, file)
    case Failure(e) => Failure(e)
    case Success(parts) => Success(ToDictionary(parts))
  }

  /** `loadDictionary(file)`: parse, then fold the parts into a map. */
  method LoadDictionary(lines: seq<string>, file: string) returns (r: Result<Dictionary, LoadError>)
    ensures r == LoadDictionarySpec(lines, file)
  {
    var parsed := ParseDictionary(lines, file);
    match parsed {
      case Failure(e) =>
        return Failure(e);
      case Success(parts) =>
        var d := PutAll(parts);
        return Success(d);
    }
  }

  /** The `foldLeft` of `put`s into a fresh map, one part at a time. */
  method PutAll(parts: seq<SpeechPart>) returns (acc: Dictionary)
    ensures acc == ToDictionary(parts)
  {
    acc := map[];
    var i := 0;
    while i < |parts|
      invariant 0 <= i <= |parts|
      invariant acc == ToDictionary(parts[..i])
    {
      assert parts[..i + 1][..i] == parts[..i];
      acc := acc[parts[i].word := parts[i]];
      i := i + 1;
    }
    assert parts[..|parts|] == parts;
  }

  /**
   * A loaded dictionary maps the word of a surviving line to the part parsed
   * from it when no later surviving line has the same word.
   */
  lemma LoadedDictionary(lines: seq<string>, file: string, k: nat)
    requires LoadDictionarySpec(lines, file).Success?
    requires k < |Survivors(lines)|
    requires forall j | k < j < |Survivors(lines)| ::
      FromInput(Survivors(lines)[j]).Success? && FromInput(Survivors(lines)[k]).Success? &&
      FromInput(Survivors(lines)[j]).value.word != FromInput(Survivors(lines)[k]).value.word
    ensures FromInput(Survivors(lines)[k]).Success?
    ensures var part := FromInput(Survivors(lines)[k]).value;
      part.word in LoadDictionarySpec(lines, file).value && LoadDictionarySpec(lines, file).value[part.word] == part
  {
    ParseDictionarySuccess(lines, file);
    var parts := ParseDictionarySpec(lines, file).value;
    LastWriteWins(parts, k);
  }
}
