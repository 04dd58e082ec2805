/** The human-readable rendering of src/main/kotlin/format/SpeechPartFormatter.kt. */
module Formatter {
  import opened KotlinText
  import opened Declensions
  import opened SpeechParts

  /** `Declension.humanReadable`. */
  function HumanReadable(d: Declension): (r: string)
    ensures r == d.Decletion()
  {
    match d
    case NOMINATIVE => "називний"
    case GENETIVE => "родовий"
    case DATIVE => "давальний"
    case ACCUSATIVE => "знахідний"
    case ABLATIVE => "орудний"
    case VOCATIVE => "кличний"
    case LOCATIVE => "місцевий"
  }

  /** The Ukrainian name of each category. */
  function Category(sp: SpeechPart): (r: string)
    ensures |r| > 0 && ' ' !in r && ',' !in r
  {
    match sp
    case Noun(_, _) => "іменник"
    case Adjective(_, _) => "прикметник"
    case Numeral(_, _) => "числівник"
    case Verb(_) => "дієслово"
    case Adverb(_) => "прислівник"
    case Conjunction(_) => "сполучник"
    case VerbalParticiple(_) => "дієприслівник"
    case Part(_) => "дієприкметник"
    case Interjection(_) => "вигук"
    case Preposition(_) => "прийменник"
  }

  /**
   * `SpeechPart.humanReadableString`: the word, then the category in
   * parentheses, with the declension for the declinable variants.
   */
  function HumanReadableString(sp: SpeechPart): (r: string)
    ensures |r| > |sp.word| && r[..|sp.word|] == sp.word
    ensures sp.Declinable() ==> r == sp.word + " (" + Category(sp) + ", " + sp.declension.Decletion() + " відмінок)"
    ensures !sp.Declinable() ==> r == sp.word + " (" + Category(sp) + ")"
  {
    if sp.Declinable() then
      var r := sp.word + " (" + Category(sp) + ", " + HumanReadable(sp.declension) + " відмінок)";
      assert r[..|sp.word|] == sp.word;
      r
    else
      var r := sp.word + " (" + Category(sp) + ")";
      assert r[..|sp.word|] == sp.word;
      r
  }

  /** The separator before the neighbour list; its first letter is a Latin 'c'. */
  const SimilarWords: string := ", cхожі слова: "

  /** The words of the neighbours, in list order. */
  function Words(parts: seq<SpeechPart>): (ws: seq<string>)
    ensures |ws| == |parts| && forall k | 0 <= k < |parts| :: ws[k] == parts[k].word
  {
    seq(|parts|, k requires 0 <= k < |parts| => parts[k].word)
  }

  /** `toHumanReadableString(speechPart, closest)`. */
  function ToHumanReadableString(sp: SpeechPart, closest: seq<SpeechPart>): (r: string)
    ensures |r| > |sp.word| && r[..|sp.word|] == sp.word
    ensures |r| >= |HumanReadableString(sp)| + |SimilarWords|
    ensures r[..|HumanReadableString(sp)|] == HumanReadableString(sp)
    ensures r[|HumanReadableString(sp)|..|HumanReadableString(sp)| + |SimilarWords|] == SimilarWords
    ensures r[|HumanReadableString(sp)| + |SimilarWords|..] == JoinToString(Words(closest), ", ")
  {
    var head := HumanReadableString(sp);
    assert (head + SimilarWords + JoinToString(Words(closest), ", "))[..|sp.word|] == head[..|sp.word|];
    head + SimilarWords + JoinToString(Words(closest), ", ")
  }

  /** An entry begins with the subject's rendering, and so with its word. */
  lemma EntryStartsWithSubject(sp: SpeechPart, closest: seq<SpeechPart>)
    ensures var r := ToHumanReadableString(sp, closest);
      && |r| >= |HumanReadableString(sp)| + |SimilarWords|
      && r[..|HumanReadableString(sp)|] == HumanReadableString(sp)
      && r[|HumanReadableString(sp)|..|HumanReadableString(sp)| + |SimilarWords|] == SimilarWords
      && r[..|sp.word|] == sp.word
  {
    var h := HumanReadableString(sp);
    var r := ToHumanReadableString(sp, closest);
    assert r == h + (SimilarWords + JoinToString(Words(closest), ", "));
    assert r[..|h|] == h;
    assert r[..|sp.word|] == h[..|sp.word|];
  }

  /** With no neighbours the entry ends right after the separator. */
  lemma EmptyNeighbours(sp: SpeechPart)
    ensures ToHumanReadableString(sp, []) == HumanReadableString(sp) + SimilarWords
  {
    assert JoinToString(Words([]), ", ") == "";
  }

  /** The neighbour list is joined in order: more neighbours extend the entry after ", ". */
  lemma MoreNeighbours(sp: SpeechPart, a: seq<SpeechPart>, b: seq<SpeechPart>)
    requires |a| > 0 && |b| > 0
    ensures ToHumanReadableString(sp, a + b) == ToHumanReadableString(sp, a) + ", " + JoinToString(Words(b), ", ")
  {
    assert Words(a + b) == Words(a) + Words(b);
    JoinAppend(Words(a), Words(b), ", ");
  }

  /** A genitive Noun with two neighbours renders as the fixed template. */
  lemma GenitiveNounWithTwoNeighbours(w: string, n1: SpeechPart, n2: SpeechPart)
    ensures ToHumanReadableString(Noun(w, GENETIVE), [n1, n2])
      == w + " (іменник, родовий відмінок), cхожі слова: " + n1.word + ", " + n2.word
  {
    var ws := Words([n1, n2]);
    assert ws == [n1.word, n2.word];
    assert ws[1..] == [n2.word];
    assert JoinToString(ws, ", ") == n1.word + ", " + n2.word;
    var head := HumanReadableString(Noun(w, GENETIVE)) + SimilarWords;
    GenitiveNounHead(w);
    assert ToHumanReadableString(Noun(w, GENETIVE), [n1, n2]) == head + (n1.word + ", " + n2.word);
  }

  lemma GenitiveNounHead(w: string)
    ensures HumanReadableString(Noun(w, GENETIVE)) + SimilarWords == w + " (іменник, родовий відмінок), cхожі слова: "
  {
    GenitiveNounSubject(w);
    assert " (іменник, родовий відмінок)" + SimilarWords == " (іменник, родовий відмінок), cхожі слова: ";
  }
  lemma GenitiveNounSubject(w: string)
    ensures HumanReadableString(Noun(w, GENETIVE)) == w + " (іменник, родовий відмінок)"
  {
    var sp := Noun(w, GENETIVE);
    assert Category(sp) == "іменник";
    assert GENETIVE.Decletion() == "родовий";
    assert " (" + "іменник" + ", " + "родовий" + " відмінок)" == " (іменник, родовий відмінок)";
    assert HumanReadableString(sp) == w + " (" + "іменник" + ", " + "родовий" + " відмінок)";
  }
}
