/** The `Lemma` value type of src/main/kotlin/speech/Lemma.kt: one grammatical tag token. */
module Lemmas {
  import opened Wrappers
  import opened KotlinText

  /** A tag token. Only `Make` builds one, so every Lemma in the model is `Valid`. */
  datatype Lemma = Lemma(value: string) {
    /** The `init` check of the class. */
    predicate Valid() {
      IsNotEmptyNotBlank(value)
    }
  }

  /**
   * The private constructor with its `init` check: `None` stands for the
   * IllegalArgumentException that `require` throws on an empty or blank value.
   */
  function Make(v: string): (r: Option<Lemma>)
    ensures r.Some? <==> IsNotEmptyNotBlank(v)
    ensures r.Some? ==> r.value.value == v && r.value.Valid()
  {
    if IsNotEmptyNotBlank(v) then Some(Lemma(v)) else None
  }

  /**
   * `equals(other)`: `None` is a null or an object of another class. Two
   * Lemmas are equal exactly when their values are; identity plays no part.
   */
  function Equals(l: Lemma, other: Option<Lemma>): (r: bool)
    ensures r <==> other == Some(l)
  {
    match other
    case None => false
    case Some(o) => o.value == l.value
  }

  /** Java's `String.hashCode` with its 32-bit wrap-around, kept unsigned. */
  function UnsignedHash(units: seq<int>): (h: int)
    ensures 0 <= h < 0x1_0000_0000
  {
    if |units| == 0 then 0
    else (31 * UnsignedHash(units[..|units| - 1]) + units[|units| - 1]) % 0x1_0000_0000
  }

  /** `hashCode()`: the hash of the value, read as a signed 32-bit Int. */
  function HashCode(l: Lemma): (h: int)
    ensures -0x8000_0000 <= h < 0x8000_0000
    ensures h >= 0 <==> UnsignedHash(Utf16Units(l.value)) < 0x8000_0000
    ensures (h - UnsignedHash(Utf16Units(l.value))) % 0x1_0000_0000 == 0
  {
    var u := UnsignedHash(Utf16Units(l.value));
    if u < 0x8000_0000 then u else u - 0x1_0000_0000
  }

  /** `equals` and `hashCode` agree: equal Lemmas hash alike. */
  lemma EqualLemmasHashAlike(a: Lemma, b: Lemma)
    requires Equals(a, Some(b))
    ensures HashCode(a) == HashCode(b)
  {
  }

  const ToStringPrefix: string := "Lemma(value='"
  const ToStringSuffix: string := "')"

  /** `toString()`: the value between a fixed prefix and suffix, from which it can be read back. */
  function ToString(l: Lemma): (r: string)
    ensures |r| == |ToStringPrefix| + |l.value| + |ToStringSuffix|
    ensures r[..|ToStringPrefix|] == ToStringPrefix
    ensures r[|ToStringPrefix|..|r| - |ToStringSuffix|] == l.value
    ensures r[|r| - |ToStringSuffix|..] == ToStringSuffix
  {
    ToStringPrefix + l.value + ToStringSuffix
  }

  /**
   * The companion object's interning `CACHE`, read and filled by `of` through
   * `getOrPut`. It only ever maps a value to a Lemma holding that value.
   */
  class LemmaPool {
    var cache: map<string, Lemma>

    ghost predicate Valid()
      reads this
    {
      forall v | v in cache :: cache[v] == Lemma(v) && cache[v].Valid()
    }

    constructor ()
      ensures Valid() && cache == map[]
    {
      cache := map[];
    }

    /**
     * `Lemma.of(v)`: the cached Lemma when there is one, otherwise a new one
     * that is cached; a rejected value throws and caches nothing. Either way
     * the result is the one `Make` gives, so interning never changes what a
     * caller sees, and a second call leaves the cache as the first left it.
     */
    method Of(v: string) returns (r: Option<Lemma>)
      requires Valid()
      modifies this
      ensures Valid()
      ensures r == Make(v)
      ensures cache == if r.Some? then old(cache)[v := r.value] else old(cache)
      ensures v in old(cache) ==> cache == old(cache)
      ensures r.Some? ==> v in cache && cache[v] == r.value
    {
      if v in cache {
        r := Some(cache[v]);
        assert cache[v := cache[v]] == cache;
      } else {
        r := Make(v);
        if r.Some? {
          cache := cache[v := r.value];
        }
      }
    }
  }
}
