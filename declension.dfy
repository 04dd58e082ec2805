/** The `Declension` enum and the `declension(lemma)` lookup of src/main/kotlin/speech/Declension.kt. */
module Declensions {
  import opened Wrappers
  import opened Lemmas

  /** The seven grammatical cases, in the enum's declaration order. */
  datatype Declension = NOMINATIVE | GENETIVE | DATIVE | ACCUSATIVE | ABLATIVE | VOCATIVE | LOCATIVE {

    /** The code that dictionary lines carry. */
    function Raw(): string {
      match this
      case NOMINATIVE => "v_naz"
      case GENETIVE => "v_rod"
      case DATIVE => "v_dav"
      case ACCUSATIVE => "v_zna"
      case ABLATIVE => "v_oru"
      case VOCATIVE => "v_kly"
      case LOCATIVE => "v_mis"
    }

    /** The enum constant's `name`. */
    function Name(): string {
      match this
      case NOMINATIVE => "NOMINATIVE"
      case GENETIVE => "GENETIVE"
      case DATIVE => "DATIVE"
      case ACCUSATIVE => "ACCUSATIVE"
      case ABLATIVE => "ABLATIVE"
      case VOCATIVE => "VOCATIVE"
      case LOCATIVE => "LOCATIVE"
    }

    /** The `decletion` field: the case's Ukrainian name. */
    function Decletion(): string {
      match this
      case NOMINATIVE => "називний"
      case GENETIVE => "родовий"
      case DATIVE => "давальний"
      case ACCUSATIVE => "знахідний"
      case ABLATIVE => "орудний"
      case VOCATIVE => "кличний"
      case LOCATIVE => "місцевий"
    }
  }

  /** `Declension.values()`. */
  const Values: seq<Declension> := [NOMINATIVE, GENETIVE, DATIVE, ACCUSATIVE, ABLATIVE, VOCATIVE, LOCATIVE]

  /** `values()` lists every case once, and the raw codes tell the cases apart. */
  lemma ValuesEnumerateDistinctCodes()
    ensures |Values| == 7
    ensures forall d: Declension :: d in Values
    ensures forall i, j | 0 <= i < j < |Values| :: Values[i].Raw() != Values[j].Raw()
  {
    forall d: Declension ensures d in Values {
      assert d == Values[0] || d == Values[1] || d == Values[2] || d == Values[3]
        || d == Values[4] || d == Values[5] || d == Values[6];
    }
    forall i, j | 0 <= i < j < |Values| ensures Values[i].Raw() != Values[j].Raw() {
      assert Values[i].Raw()[2..] != Values[j].Raw()[2..];
    }
  }

  /** No two cases share a raw code. */
  lemma RawInjective(a: Declension, b: Declension)
    requires a.Raw() == b.Raw()
    ensures a == b
  {
    ValuesEnumerateDistinctCodes();
    assert a in Values && b in Values;
    var i :| 0 <= i < |Values| && Values[i] == a;
    var j :| 0 <= j < |Values| && Values[j] == b;
    assert i == j;
  }

  /** Kotlin's `find { it.raw == raw }` over a list of cases. */
  function FindByRaw(ds: seq<Declension>, raw: string): (r: Option<Declension>)
    ensures r.Some? ==> r.value in ds && r.value.Raw() == raw
    ensures r.None? ==> forall k | 0 <= k < |ds| :: ds[k].Raw() != raw
  {
    if |ds| == 0 then None
    else if ds[0].Raw() == raw then Some(ds[0])
    else FindByRaw(ds[1..], raw)
  }

  /** `declension(lemma)`. */
  function DeclensionOf(l: Lemma): (r: Option<Declension>)
    ensures r.Some? ==> r.value.Raw() == l.value
  {
    FindByRaw(Values, l.value)
  }

  /** The lookup yields exactly the case whose raw code is the lemma's value. */
  lemma DeclensionOfIff(l: Lemma, d: Declension)
    ensures DeclensionOf(l) == Some(d) <==> d.Raw() == l.value
  {
    ValuesEnumerateDistinctCodes();
    if d.Raw() == l.value {
      var r := DeclensionOf(l);
      assert d in Values;
      assert r.Some?;
      RawInjective(r.value, d);
    }
  }

  /** A value that is none of the seven codes finds no case. */
  lemma DeclensionOfUnknown(l: Lemma)
    requires forall d: Declension :: d.Raw() != l.value
    ensures DeclensionOf(l) == None
  {
  }

  /** Round trip: the Lemma of a case's raw code looks up that case. */
  lemma DeclensionRoundTrip(d: Declension)
    ensures Make(d.Raw()).Some?
    ensures DeclensionOf(Make(d.Raw()).value) == Some(d)
  {
    assert !KotlinText.IsWhitespace(d.Raw()[0]);
    DeclensionOfIff(Lemma(d.Raw()), d);
  }
}
