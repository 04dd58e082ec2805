/**
 * The question parsing and the score count of src/main/kotlin/word2vec/Evaluator.kt,
 * with the model's `wordsNearest` passed in and the question file given as its lines.
 */
module Evaluator {
  import opened Wrappers
  import opened KotlinText
  import opened KotlinCollections
  import opened Word2Vec2Dict

  /** A question: the given word and the words expected among its neighbours. */
  datatype Question = Question(given: string, expected: seq<string>)

  /** How many neighbours `evaluate` asks the model for. */
  const NeighbourCount: int := 10

  /** `split(" ").filter { it.isNotEmpty() && it.isNotBlank() }`: the non-blank space-separated tokens. */
  function Tokens(line: string): (r: seq<string>)
    ensures forall k | 0 <= k < |r| :: IsNotEmptyNotBlank(r[k]) && ' ' !in r[k]
  {
    SplitSegmentsLackDelimiter(line, ' ');
    Filter(Split(line, ' '), IsNotEmptyNotBlank)
  }

  /** `it[0] to it.subList(1, it.size)`; `None` stands for the exception `it[0]` throws on no tokens. */
  function ParseQuestion(line: string): (r: Option<Question>)
    ensures r.Some? ==> IsNotEmptyNotBlank(r.value.given) && ' ' !in r.value.given
  {
    var tokens := Tokens(line);
    if |tokens| == 0 then None else Some(Question(tokens[0], tokens[1..]))
  }

  /** The question list of `run`: `None` when a line has no token, which ends the command. */
  function ParseQuestions(lines: seq<string>): (r: Option<seq<Question>>)
    ensures r.Some? ==> |r.value| == |lines|
  {
    ParseEach(lines, ParseQuestion)
  }

  /** Each line parsed in order; the first line that yields nothing ends the list. */
  function ParseEach<T>(lines: seq<string>, parse: string -> Option<T>): (r: Option<seq<T>>)
    ensures r.Some? ==> |r.value| == |lines|
  {
    if |lines| == 0 then Some([])
    else
      match parse(lines[0])
      case None => None
      case Some(q) =>
        match ParseEach(lines[1..], parse)
        case None => None
        case Some(qs) => Some([q] + qs)
  }

  /** A line yields a question exactly when it has a token; the first is the given word, the rest the expected ones. */
  lemma ParseQuestionSpec(line: string)
    ensures ParseQuestion(line).Some? <==> |Tokens(line)| > 0
    ensures ParseQuestion(line).Some? ==>
      var q := ParseQuestion(line).value;
      [q.given] + q.expected == Tokens(line) && IsNotEmptyNotBlank(q.given) && ' ' !in q.given
  {
    var t := Tokens(line);
    if |t| > 0 {
      assert t == [t[0]] + t[1..];
    }
  }

  /** An empty or blank line has no token, so it yields no question. */
  lemma BlankLineHasNoQuestion(line: string)
    requires IsBlank(line)
    ensures ParseQuestion(line).None?
  {
    SplitOfBlank(line, ' ');
  }

  /** Questions are parsed line by line; one line without a token makes the whole list fail. */
  lemma ParseQuestionsSpec(lines: seq<string>)
    ensures ParseQuestions(lines).Some? <==> forall k | 0 <= k < |lines| :: ParseQuestion(lines[k]).Some?
    ensures ParseQuestions(lines).Some? ==>
      forall k | 0 <= k < |lines| :: ParseQuestions(lines).value[k] == ParseQuestion(lines[k]).value
  {
    ParseEachSpec(lines, ParseQuestion);
  }

  lemma {:induction false} ParseEachSpec<T>(lines: seq<string>, parse: string -> Option<T>)
    ensures ParseEach(lines, parse).Some? <==> forall k | 0 <= k < |lines| :: parse(lines[k]).Some?
    ensures ParseEach(lines, parse).Some? ==>
      forall k | 0 <= k < |lines| :: ParseEach(lines, parse).value[k] == parse(lines[k]).value
  {
    if |lines| > 0 {
      ParseEachSpec(lines[1..], parse);
      assert forall k | 1 <= k < |lines| :: lines[k] == lines[1..][k - 1];
      var q := parse(lines[0]);
      var rest := ParseEach(lines[1..], parse);
      if q.Some? && rest.Some? {
        var r := [q.value] + rest.value;
        assert ParseEach(lines, parse) == Some(r);
        assert forall k | 1 <= k < |lines| :: r[k] == rest.value[k - 1];
      }
    }
  }

  /** Kotlin's `List.minus(elements)`: every occurrence of an element of `ys` removed. */
  function Minus(xs: seq<string>, ys: seq<string>): (r: seq<string>)
    ensures |r| <= |xs|
    ensures forall k | 0 <= k < |r| :: r[k] in xs && r[k] !in ys
  {
    Filter(xs, x => x !in ys)
  }

  /** The list shrinks exactly when one of its words is among those removed. */
  lemma MinusShrinks(xs: seq<string>, ys: seq<string>)
    ensures |Minus(xs, ys)| != |xs| <==> exists k | 0 <= k < |xs| :: xs[k] in ys
  {
    FilterKeepsAll(xs, x => x !in ys);
  }

  /** The test `expected.minus(nearest).size != expected.size` for one question. */
  predicate IsCorrect(q: Question, vec: Nearest)
    ensures |q.expected| == 0 ==> !IsCorrect(q, vec)
  {
    |Minus(q.expected, vec(q.given, NeighbourCount))| != |q.expected|
  }

  /** A question is answered when one of its expected words is among the given word's ten nearest. */
  lemma IsCorrectSpec(q: Question, vec: Nearest)
    ensures IsCorrect(q, vec) <==> exists k | 0 <= k < |q.expected| :: q.expected[k] in vec(q.given, NeighbourCount)
    ensures |q.expected| == 0 ==> !IsCorrect(q, vec)
  {
    MinusShrinks(q.expected, vec(q.given, NeighbourCount));
  }

  /** `questions.fold(acc) { ... }`: one more for each question found correct. */
  function CountCorrect(qs: seq<Question>, vec: Nearest, acc: int): (r: int)
    ensures acc <= r <= acc + |qs|
  {
    if |qs| == 0 then acc
    else CountCorrect(qs[1..], vec, if IsCorrect(qs[0], vec) then acc + 1 else acc)
  }

  /** The count from zero is the number of correct questions, so between zero and the number of questions. */
  lemma {:induction false} CountCorrectSpec(qs: seq<Question>, vec: Nearest, acc: int)
    ensures CountCorrect(qs, vec, acc) == acc + |Filter(qs, q => IsCorrect(q, vec))|
  {
    if |qs| > 0 {
      CountCorrectSpec(qs[1..], vec, if IsCorrect(qs[0], vec) then acc + 1 else acc);
      FilterAppend([qs[0]], qs[1..], q => IsCorrect(q, vec));
      assert qs == [qs[0]] + qs[1..];
    }
  }

  /** Questions without expected words never score. */
  lemma {:induction false} UnansweredAddNothing(qs: seq<Question>, vec: Nearest, acc: int)
    requires forall k | 0 <= k < |qs| :: |qs[k].expected| == 0
    ensures CountCorrect(qs, vec, acc) == acc
  {
    if |qs| > 0 {
      IsCorrectSpec(qs[0], vec);
      UnansweredAddNothing(qs[1..], vec, acc);
    }
  }
}
