/**
 * The `SpeechPart` sealed hierarchy of src/main/kotlin/speech/SpeechPart.kt:
 * ten variants, one recognizer per variant, the ordered recognizer chain of
 * `fromInput`, and the declension scan over the remaining tags.
 */
module SpeechParts {
  import opened Wrappers
  import opened KotlinText
  import opened Lemmas
  import opened Declensions

  /** The ten grammatical categories; three of them carry a declension. */
  datatype SpeechPart =
    | Noun(word: string, declension: Declension)
    | Adjective(word: string, declension: Declension)
    | Numeral(word: string, declension: Declension)
    | Verb(word: string)
    | Adverb(word: string)
    | Conjunction(word: string)
    | VerbalParticiple(word: string)
    | Part(word: string)
    | Interjection(word: string)
    | Preposition(word: string)
  {
    predicate Declinable() {
      Noun? || Adjective? || Numeral?
    }

    /** The data class's simple name. */
    function ClassName(): string {
      match this
      case Noun(_, _) => "Noun"
      case Adjective(_, _) => "Adjective"
      case Numeral(_, _) => "Numeral"
      case Verb(_) => "Verb"
      case Adverb(_) => "Adverb"
      case Conjunction(_) => "Conjunction"
      case VerbalParticiple(_) => "VerbalParticiple"
      case Part(_) => "Part"
      case Interjection(_) => "Interjection"
      case Preposition(_) => "Preposition"
    }
  }

  /**
   * `toString()`: Noun overrides it with its Ukrainian description; the other
   * variants keep the data class rendering `Name(word=..., declension=...)`.
   */
  function ToString(sp: SpeechPart): (r: string)
    ensures sp.Noun? ==> r == "іменник, " + sp.declension.Decletion() + " відм."
    ensures (sp.Adjective? || sp.Numeral?) ==>
      r == sp.ClassName() + "(word=" + sp.word + ", declension=" + sp.declension.Name() + ")"
    ensures !sp.Declinable() ==> r == sp.ClassName() + "(word=" + sp.word + ")"
  {
    match sp
    case Noun(_, d) => "іменник, " + d.Decletion() + " відм."
    case Adjective(w, d) => "Adjective(word=" + w + ", declension=" + d.Name() + ")"
    case Numeral(w, d) => "Numeral(word=" + w + ", declension=" + d.Name() + ")"
    case _ => sp.ClassName() + "(word=" + sp.word + ")"
  }

  /** The data-class rendering starts with the class name and gives the word back right after `(word=`. */
  lemma ToStringReadsBack(sp: SpeechPart)
    requires !sp.Noun?
    ensures var r := ToString(sp);
      var head := sp.ClassName() + "(word=";
      && |r| > |head| + |sp.word| && r[..|head|] == head
      && r[|head|..|head| + |sp.word|] == sp.word && r[|r| - 1] == ')'
  {
    var head := sp.ClassName() + "(word=";
    if sp.Declinable() {
      var tail := ", declension=" + sp.declension.Name() + ")";
      assert tail[|tail| - 1] == ')';
      ThreePieces(head, sp.word, tail);
    } else {
      ThreePieces(head, sp.word, ")");
    }
  }

  lemma ThreePieces(head: string, w: string, tail: string)
    requires |tail| > 0 && tail[|tail| - 1] == ')'
    ensures var r := head + w + tail;
      && |r| > |head| + |w| && r[..|head|] == head
      && r[|head|..|head| + |w|] == w && r[|r| - 1] == ')'
  {
    var r := head + w + tail;
    assert r[..|head|] == head;
    assert r[|head|..|head| + |w|] == w;
    assert r[|r| - 1] == tail[|tail| - 1];
  }

  /** The recognizers: the companion object of each variant. */
  datatype Parser =
    | NounParser | AdjectiveParser | NumeralParser | VerbParser | AdverbParser
    | ConjunctionParser | VerbalParticipleParser | PartParser | InterjectionParser | PrepositionParser
  {
    /** The literal the head tag must equal. */
    function Tag(): string {
      match this
      case NounParser => "noun"
      case AdjectiveParser => "adj"
      case NumeralParser => "num"
      case VerbParser => "verb"
      case AdverbParser => "adv"
      case ConjunctionParser => "conj"
      case VerbalParticipleParser => "advp"
      case PartParser => "part"
      case InterjectionParser => "intj"
      case PrepositionParser => "prep"
    }

    /** The part an accepting recognizer builds from the word and the tail tags. */
    function Build(word: string, tail: seq<Lemma>): SpeechPart {
      match this
      case NounParser => Noun(word, ParseDeclension(tail))
      case AdjectiveParser => Adjective(word, ParseDeclension(tail))
      case NumeralParser => Numeral(word, ParseDeclension(tail))
      case VerbParser => Verb(word)
      case AdverbParser => Adverb(word)
      case ConjunctionParser => Conjunction(word)
      case VerbalParticipleParser => VerbalParticiple(word)
      case PartParser => Part(word)
      case InterjectionParser => Interjection(word)
      case PrepositionParser => Preposition(word)
    }
  }

  /** The recognizer that builds a given variant. */
  function ParserOf(sp: SpeechPart): (p: Parser)
    ensures p.Build(sp.word, []).ClassName() == sp.ClassName()
  {
    match sp
    case Noun(_, _) => NounParser
    case Adjective(_, _) => AdjectiveParser
    case Numeral(_, _) => NumeralParser
    case Verb(_) => VerbParser
    case Adverb(_) => AdverbParser
    case Conjunction(_) => ConjunctionParser
    case VerbalParticiple(_) => VerbalParticipleParser
    case Part(_) => PartParser
    case Interjection(_) => InterjectionParser
    case Preposition(_) => PrepositionParser
  }

  /** The chain's fixed order. */
  const Parsers: seq<Parser> := [NounParser, AdjectiveParser, NumeralParser, VerbParser, AdverbParser,
    ConjunctionParser, VerbalParticipleParser, PartParser, InterjectionParser, PrepositionParser]

  /** Every recognizer is in the chain, and the chain's tags are pairwise distinct. */
  lemma ParsersCompleteDistinct()
    ensures forall p: Parser :: p in Parsers
    ensures DistinctTags(Parsers)
  {
    forall p: Parser ensures p in Parsers {
      assert p == Parsers[0] || p == Parsers[1] || p == Parsers[2] || p == Parsers[3] || p == Parsers[4]
        || p == Parsers[5] || p == Parsers[6] || p == Parsers[7] || p == Parsers[8] || p == Parsers[9];
    }
    forall i, j | 0 <= i < j < |Parsers| ensures Parsers[i].Tag() != Parsers[j].Tag() {
      TagsDiffer(Parsers[i], Parsers[j]);
    }
  }

  /** Distinct recognizers test distinct literals. */
  lemma TagsDiffer(p: Parser, q: Parser)
    requires p != q
    ensures p.Tag() != q.Tag()
  {
    assert |p.Tag()| != |q.Tag()| || p.Tag()[0] != q.Tag()[0] || p.Tag()[1] != q.Tag()[1] || p.Tag()[2] != q.Tag()[2];
  }

  ghost predicate DistinctTags(ps: seq<Parser>) {
    forall i, j | 0 <= i < j < |ps| :: ps[i].Tag() != ps[j].Tag()
  }

  /** A recognizer's `invoke`: it looks at the head tag only. */
  function Invoke(p: Parser, word: string, lemmas: seq<Lemma>): (r: Option<SpeechPart>)
    requires |lemmas| > 0
    ensures r.Some? <==> lemmas[0].value == p.Tag()
    ensures r.Some? ==> r.value.word == word && ParserOf(r.value) == p
  {
    if lemmas[0].value == p.Tag() then Some(p.Build(word, lemmas[1..])) else None
  }

  /** A recognizer accepts exactly when the head tag is its literal; the tail never decides. */
  lemma InvokeAcceptsIffHead(p: Parser, word: string, lemmas: seq<Lemma>)
    requires |lemmas| > 0
    ensures Invoke(p, word, lemmas).Some? <==> lemmas[0].value == p.Tag()
    ensures Invoke(p, word, lemmas).Some? ==>
      Invoke(p, word, lemmas).value.word == word && ParserOf(Invoke(p, word, lemmas).value) == p
    ensures forall other: seq<Lemma> :: |other| > 0 && other[0] == lemmas[0] ==>
      Invoke(p, word, other).Some? == Invoke(p, word, lemmas).Some?
  {
  }

  /** The inner tail-recursive `fromInput(iterator)`: the first recognizer that accepts. */
  function FromChain(ps: seq<Parser>, word: string, lemmas: seq<Lemma>): (r: Option<SpeechPart>)
    requires |lemmas| > 0
    ensures r.Some? ==> r.value.word == word && ParserOf(r.value) in ps && ParserOf(r.value).Tag() == lemmas[0].value
  {
    if |ps| == 0 then None
    else
      var parsed := Invoke(ps[0], word, lemmas);
      if parsed.Some? then parsed else FromChain(ps[1..], word, lemmas)
  }

  /** The chain fails exactly when every recognizer declines. */
  lemma {:induction false} FromChainNone(ps: seq<Parser>, word: string, lemmas: seq<Lemma>)
    requires |lemmas| > 0
    ensures FromChain(ps, word, lemmas).None? <==> forall k | 0 <= k < |ps| :: Invoke(ps[k], word, lemmas).None?
  {
    if |ps| > 0 {
      FromChainNone(ps[1..], word, lemmas);
      assert forall k | 1 <= k < |ps| :: ps[k] == ps[1..][k - 1];
    }
  }

  /**
   * With pairwise distinct tags, the chain yields `x` exactly when some
   * recognizer in it yields `x`: at most one accepts, so position is irrelevant.
   */
  lemma {:induction false} FromChainSome(ps: seq<Parser>, word: string, lemmas: seq<Lemma>, x: SpeechPart)
    requires |lemmas| > 0 && DistinctTags(ps)
    ensures FromChain(ps, word, lemmas) == Some(x) <==> exists k | 0 <= k < |ps| :: Invoke(ps[k], word, lemmas) == Some(x)
  {
    if |ps| > 0 {
      assert DistinctTags(ps[1..]) by {
        forall i, j | 0 <= i < j < |ps[1..]| ensures ps[1..][i].Tag() != ps[1..][j].Tag() {
          assert ps[1..][i] == ps[i + 1] && ps[1..][j] == ps[j + 1];
        }
      }
      FromChainSome(ps[1..], word, lemmas, x);
      if Invoke(ps[0], word, lemmas).Some? {
        forall k | 1 <= k < |ps| ensures Invoke(ps[k], word, lemmas).None? {
          assert ps[0].Tag() != ps[k].Tag();
        }
      }
      forall k | 1 <= k < |ps| ensures ps[k] == ps[1..][k - 1] { }
      if exists k | 0 <= k < |ps| :: Invoke(ps[k], word, lemmas) == Some(x) {
        var k :| 0 <= k < |ps| && Invoke(ps[k], word, lemmas) == Some(x);
        if k > 0 {
          assert Invoke(ps[1..][k - 1], word, lemmas) == Some(x);
        }
      }
    }
  }

  /** Reordering the recognizers (same set, distinct tags) does not change the result. */
  lemma FromChainOrderIrrelevant(ps: seq<Parser>, qs: seq<Parser>, word: string, lemmas: seq<Lemma>)
    requires |lemmas| > 0 && DistinctTags(ps) && DistinctTags(qs)
    requires forall p :: p in ps <==> p in qs
    ensures FromChain(ps, word, lemmas) == FromChain(qs, word, lemmas)
  {
    FromChainNone(ps, word, lemmas);
    FromChainNone(qs, word, lemmas);
    var r := FromChain(ps, word, lemmas);
    if r.Some? {
      FromChainSome(ps, word, lemmas, r.value);
      var k :| 0 <= k < |ps| && Invoke(ps[k], word, lemmas) == r;
      assert ps[k] in qs;
      var m :| 0 <= m < |qs| && qs[m] == ps[k];
      FromChainSome(qs, word, lemmas, r.value);
    } else {
      forall m | 0 <= m < |qs| ensures Invoke(qs[m], word, lemmas).None? {
        assert qs[m] in ps;
        var k :| 0 <= k < |ps| && ps[k] == qs[m];
      }
    }
  }

  /** The private `List<Lemma>.parse(parser)`: the first element, from index `i` on, that `parser` accepts. */
  function FindFirst<T>(ls: seq<Lemma>, parser: Lemma -> Option<T>, i: nat): (r: Option<T>)
    requires i <= |ls|
    ensures r.Some? ==> exists k | i <= k < |ls| :: parser(ls[k]) == r
    decreases |ls| - i
  {
    if i == |ls| then None
    else
      var parsed := parser(ls[i]);
      if parsed.Some? then parsed else FindFirst(ls, parser, i + 1)
  }

  /** `FindFirst` finds the value of the first accepted element, or nothing when none is accepted. */
  lemma {:induction false} FindFirstSpec<T>(ls: seq<Lemma>, parser: Lemma -> Option<T>, i: nat)
    requires i <= |ls|
    ensures FindFirst(ls, parser, i).None? <==> forall k | i <= k < |ls| :: parser(ls[k]).None?
    ensures FindFirst(ls, parser, i).Some? ==> exists k | i <= k < |ls| ::
      FindFirst(ls, parser, i) == parser(ls[k]) && forall j | i <= j < k :: parser(ls[j]).None?
    decreases |ls| - i
  {
    if i < |ls| && parser(ls[i]).None? {
      FindFirstSpec(ls, parser, i + 1);
      if FindFirst(ls, parser, i).Some? {
        var k :| i + 1 <= k < |ls| && FindFirst(ls, parser, i) == parser(ls[k])
          && forall j | i + 1 <= j < k :: parser(ls[j]).None?;
        assert forall j | i <= j < k :: parser(ls[j]).None?;
      }
    }
  }

  /** `parseDeclension()`: the first tail tag that is a declension code, NOMINATIVE by default. */
  function ParseDeclension(tail: seq<Lemma>): (d: Declension)
    ensures d == NOMINATIVE || exists k | 0 <= k < |tail| :: tail[k].value == d.Raw()
  {
    FindFirst(tail, DeclensionOf, 0).GetOr(NOMINATIVE)
  }

  /**
   * The declension is the case of the first tail tag that is a known code;
   * unknown tags before it are skipped; without any code it is NOMINATIVE.
   */
  lemma ParseDeclensionSpec(tail: seq<Lemma>)
    ensures (forall k | 0 <= k < |tail| :: DeclensionOf(tail[k]).None?) ==> ParseDeclension(tail) == NOMINATIVE
    ensures forall k | 0 <= k < |tail| ::
      DeclensionOf(tail[k]).Some? && (forall j | 0 <= j < k :: DeclensionOf(tail[j]).None?) ==>
      ParseDeclension(tail) == DeclensionOf(tail[k]).value
  {
    FindFirstSpec(tail, DeclensionOf, 0);
    var r := FindFirst(tail, DeclensionOf, 0);
    if r.Some? {
      var m :| 0 <= m < |tail| && r == DeclensionOf(tail[m]) && forall j | 0 <= j < m :: DeclensionOf(tail[j]).None?;
      forall k | 0 <= k < |tail| && DeclensionOf(tail[k]).Some? && (forall j | 0 <= j < k :: DeclensionOf(tail[j]).None?)
        ensures ParseDeclension(tail) == DeclensionOf(tail[k]).value
      {
        assert !(k < m) && !(m < k);
      }
    }
  }

  /** Why a line could not be turned into a SpeechPart. */
  datatype ParseError =
    | EmptyInput                 // returned as Left
    | Unparsed(input: string)    // returned as Left: no recognizer accepted
    | LemmaRejected(value: string)  // thrown by Lemma's `require` for an empty or blank tag
  {
    /** The exception's message. */
    function Message(): string {
      match this
      case EmptyInput => "The input was empty"
      case Unparsed(input) => "Couldn't parse input string=" + input
      case LemmaRejected(_) => "Failed requirement."
    }

    /** Whether `fromInput` throws this error instead of returning it as a Left. */
    predicate Thrown() {
      LemmaRejected?
    }
  }

  /** `map(Lemma::of).toList()`: the first rejected segment aborts the conversion. */
  function LemmasOf(segments: seq<string>): (r: Result<seq<Lemma>, string>)
    ensures r.Success? <==> forall k | 0 <= k < |segments| :: IsNotEmptyNotBlank(segments[k])
    ensures r.Success? ==> |r.value| == |segments|
    ensures r.Success? ==> forall k | 0 <= k < |segments| :: r.value[k] == Lemma(segments[k]) && r.value[k].Valid()
    ensures r.Failure? ==> exists k | 0 <= k < |segments| ::
      r.error == segments[k] && !IsNotEmptyNotBlank(segments[k])
  {
    if |segments| == 0 then Success([])
    else
      match Make(segments[0])
      case None => Failure(segments[0])
      case Some(head) =>
        match LemmasOf(segments[1..])
        case Failure(e) => Failure(e)
        case Success(tail) =>
          assert forall k | 1 <= k < |segments| :: segments[k] == segments[1..][k - 1];
          Success([head] + tail)
  }

  /**
   * `SpeechPart.fromInput(input)`. The word is the text before the first
   * space; the tags are the text after it (the whole input when there is no
   * space) split on ':'.
   */
  function FromInput(input: string): (r: Result<SpeechPart, ParseError>)
    ensures r == Failure(EmptyInput) <==> |input| == 0
    ensures r.Success? ==> r.value.word == SubstringBefore(input, ' ') && ' ' !in r.value.word
    ensures r.Failure? && r.error.Unparsed? ==> r.error.input == input
  {
    if |input| == 0 then Failure(EmptyInput)
    else
      var word := SubstringBefore(input, ' ');
      SubstringAround(input, ' ');
      var forms := LemmasOf(Split(SubstringAfter(input, ' '), ':'));
      if forms.Failure? then Failure(LemmaRejected(forms.error))
      else
        var parsed := FromChain(Parsers, word, forms.value);
        FromChainWord(Parsers, word, forms.value);
        if parsed.Some? then Success(parsed.value) else Failure(Unparsed(input))
  }

  /** The messages of the returned errors: the empty input, and the unparsed input quoted whole. */
  lemma FromInputMessages(input: string)
    ensures |input| == 0 ==> FromInput(input).error.Message() == "The input was empty"
    ensures FromInput(input).Failure? && FromInput(input).error.Unparsed? ==>
      FromInput(input).error.Message() == "Couldn't parse input string=" + input
  {
  }

  lemma {:induction false} FromChainWord(ps: seq<Parser>, word: string, lemmas: seq<Lemma>)
    requires |lemmas| > 0
    ensures FromChain(ps, word, lemmas).Some? ==> FromChain(ps, word, lemmas).value.word == word
  {
    if |ps| > 0 {
      FromChainWord(ps[1..], word, lemmas);
    }
  }

  /** A dictionary line built from a word and its tags. */
  function Line(w: string, ts: seq<string>): string {
    w + " " + JoinToString(ts, ":")
  }

  /** The word and the tag segments `fromInput` reads from such a line are the ones it was built from. */
  lemma LineParts(w: string, ts: seq<string>)
    requires ' ' !in w && |ts| > 0
    requires forall k | 0 <= k < |ts| :: ':' !in ts[k]
    ensures |Line(w, ts)| > 0
    ensures SubstringBefore(Line(w, ts), ' ') == w
    ensures Split(SubstringAfter(Line(w, ts), ' '), ':') == ts
  {
    assert Line(w, ts) == w + [' '] + JoinToString(ts, ":");
    SubstringOfJoined(w, ' ', JoinToString(ts, ":"));
    SplitJoin(ts, ':');
  }

  /** An empty or blank tag anywhere in the line makes `fromInput` throw. */
  lemma FromInputRejectsBlankTag(w: string, ts: seq<string>, k: nat)
    requires ' ' !in w && |ts| > 0
    requires forall j | 0 <= j < |ts| :: ':' !in ts[j]
    requires k < |ts| && !IsNotEmptyNotBlank(ts[k])
    ensures FromInput(Line(w, ts)).Failure? && FromInput(Line(w, ts)).error.Thrown()
  {
    LineParts(w, ts);
  }

  /** With admissible tags, `fromInput` is the recognizer chain over the tags' Lemmas. */
  lemma FromInputReduces(w: string, ts: seq<string>)
    requires ' ' !in w && |ts| > 0
    requires forall j | 0 <= j < |ts| :: ':' !in ts[j] && IsNotEmptyNotBlank(ts[j])
    ensures FromInput(Line(w, ts)) ==
      match FromChain(Parsers, w, LemmaSeq(ts))
      case Some(x) => Success(x)
      case None => Failure(Unparsed(Line(w, ts)))
  {
    LineParts(w, ts);
    assert LemmasOf(ts).value == LemmaSeq(ts);
  }

  /**
   * When every tag is admissible, the recognizer whose literal is the head
   * tag builds the part from the word and the remaining tags.
   */
  lemma FromInputSelects(w: string, ts: seq<string>, p: Parser)
    requires ' ' !in w && |ts| > 0
    requires forall j | 0 <= j < |ts| :: ':' !in ts[j] && IsNotEmptyNotBlank(ts[j])
    requires p.Tag() == ts[0]
    ensures FromInput(Line(w, ts)) == Success(p.Build(w, LemmaSeq(ts[1..])))
  {
    FromInputReduces(w, ts);
    var lemmas := LemmaSeq(ts);
    assert lemmas[1..] == LemmaSeq(ts[1..]);
    ChainSelects(p, w, lemmas);
  }

  /** The chain yields what the recognizer of the head tag builds. */
  lemma ChainSelects(p: Parser, w: string, lemmas: seq<Lemma>)
    requires |lemmas| > 0 && lemmas[0].value == p.Tag()
    ensures FromChain(Parsers, w, lemmas) == Some(p.Build(w, lemmas[1..]))
  {
    ParsersCompleteDistinct();
    assert p in Parsers;
    var k :| 0 <= k < |Parsers| && Parsers[k] == p;
    assert Invoke(Parsers[k], w, lemmas) == Some(p.Build(w, lemmas[1..]));
    FromChainSome(Parsers, w, lemmas, p.Build(w, lemmas[1..]));
  }

  /** When every tag is admissible and the head tag is no recognizer's literal, the line is unparsed. */
  lemma FromInputUnparsed(w: string, ts: seq<string>)
    requires ' ' !in w && |ts| > 0
    requires forall j | 0 <= j < |ts| :: ':' !in ts[j] && IsNotEmptyNotBlank(ts[j])
    requires forall p: Parser :: p.Tag() != ts[0]
    ensures FromInput(Line(w, ts)) == Failure(Unparsed(Line(w, ts)))
  {
    FromInputReduces(w, ts);
    ParsersCompleteDistinct();
    FromChainNone(Parsers, w, LemmaSeq(ts));
  }

  /** The Lemmas of admissible segments. */
  function LemmaSeq(ts: seq<string>): (r: seq<Lemma>)
    ensures |r| == |ts| && forall k | 0 <= k < |ts| :: r[k] == Lemma(ts[k])
  {
    seq(|ts|, k requires 0 <= k < |ts| => Lemma(ts[k]))
  }

  /**
   * The dictionary line that describes a part: its word, its recognizer's tag
   * and, for the declinable variants, its declension's raw code.
   */
  function DictionaryLine(sp: SpeechPart): string {
    Line(sp.word, LineTags(sp))
  }

  function LineTags(sp: SpeechPart): (ts: seq<string>)
    ensures |ts| > 0 && ts[0] == ParserOf(sp).Tag()
  {
    if sp.Declinable() then [ParserOf(sp).Tag(), sp.declension.Raw()] else [ParserOf(sp).Tag()]
  }

  /** A recognizer's literal is an admissible tag without ':'. */
  lemma TagAdmissible(p: Parser)
    ensures ':' !in p.Tag() && IsNotEmptyNotBlank(p.Tag())
  {
    var t := p.Tag();
    assert !IsWhitespace(t[0]);
    assert forall i | 0 <= i < |t| :: 'a' <= t[i] <= 'z';
  }

  /** A raw declension code is an admissible tag without ':'. */
  lemma RawAdmissible(d: Declension)
    ensures ':' !in d.Raw() && IsNotEmptyNotBlank(d.Raw())
  {
    var t := d.Raw();
    assert !IsWhitespace(t[0]);
    assert forall i | 0 <= i < |t| :: 'a' <= t[i] <= 'z' || t[i] == '_';
  }

  /** Round trip: every part whose word holds no space parses back from its dictionary line. */
  lemma ParseDictionaryLine(sp: SpeechPart)
    requires ' ' !in sp.word
    ensures FromInput(DictionaryLine(sp)) == Success(sp)
  {
    var p := ParserOf(sp);
    TagAdmissible(p);
    if sp.Declinable() {
      var d := sp.declension;
      var ts := [p.Tag(), d.Raw()];
      RawAdmissible(d);
      assert LineTags(sp) == ts;
      FromInputSelects(sp.word, ts, p);
      var tail := LemmaSeq(ts[1..]);
      assert tail == [Lemma(d.Raw())];
      DeclensionRoundTrip(d);
      assert FindFirst(tail, DeclensionOf, 0) == Some(d);
      BuildParserOf(sp, tail);
    } else {
      var ts := [p.Tag()];
      assert LineTags(sp) == ts;
      FromInputSelects(sp.word, ts, p);
      assert LemmaSeq(ts[1..]) == [];
      BuildParserOf(sp, []);
    }
  }

  /** A part's own recognizer rebuilds it, given a tail that yields its declension. */
  lemma BuildParserOf(sp: SpeechPart, tail: seq<Lemma>)
    requires sp.Declinable() ==> ParseDeclension(tail) == sp.declension
    ensures ParserOf(sp).Build(sp.word, tail) == sp
  {
  }

  /** A line `<w> noun:v_rod` is a genitive Noun of `w`. */
  lemma GenitiveNounLine(w: string)
    requires ' ' !in w
    ensures FromInput(w + " noun:v_rod") == Success(Noun(w, GENETIVE))
  {
    ParseDictionaryLine(Noun(w, GENETIVE));
    GenitiveNounLineText(w);
  }

  lemma GenitiveNounLineText(w: string)
    ensures DictionaryLine(Noun(w, GENETIVE)) == w + " noun:v_rod"
  {
    var ts := LineTags(Noun(w, GENETIVE));
    assert ts == ["noun", "v_rod"];
    assert ts[1..] == ["v_rod"];
    assert JoinToString(ts[1..], ":") == "v_rod";
    assert JoinToString(ts, ":") == "noun:v_rod";
  }
}
