/**
 * The pieces of the Kotlin standard library's string handling that the
 * thesaurus relies on: blankness, `indexOf`, `substringBefore`/`substringAfter`,
 * `split`, `joinToString`, `trim`, `Int.toString` and `String.compareTo`.
 */
module KotlinText {

  /**
   * Kotlin's `Char.isWhitespace`, over a fixed set: the Java whitespace
   * characters plus the Unicode space separators (no-break spaces included).
   */
  predicate IsWhitespace(c: char) {
    || c == ' ' || c == '\t' || c == '\n' || c == '\r' || c == '\U{000B}' || c == '\U{000C}'
    || ('\U{001C}' <= c <= '\U{001F}')
    || c == '\U{00A0}' || c == '\U{1680}'
    || ('\U{2000}' <= c <= '\U{200A}')
    || c == '\U{2028}' || c == '\U{2029}' || c == '\U{202F}' || c == '\U{205F}' || c == '\U{3000}'
  }

  /** Kotlin's `isBlank`: every character is whitespace (so "" is blank). */
  predicate IsBlank(s: string) {
    forall i | 0 <= i < |s| :: IsWhitespace(s[i])
  }

  /** `isNotEmpty() && isNotBlank()`, the filter used for dictionary lines. */
  predicate IsNotEmptyNotBlank(s: string) {
    |s| > 0 && !IsBlank(s)
  }

  lemma NotEmptyNotBlankIsNotBlank(s: string)
    ensures IsNotEmptyNotBlank(s) <==> !IsBlank(s)
  {
    if |s| == 0 { assert IsBlank(s); }
  }

  /** Kotlin's `indexOf(c)`: the first index holding `c`, or -1. */
  function IndexOf(s: string, c: char): (r: int)
    ensures -1 <= r < |s|
    ensures r == -1 <==> c !in s
    ensures r >= 0 ==> s[r] == c && c !in s[..r]
  {
    if |s| == 0 then -1
    else if s[0] == c then 0
    else
      var i := IndexOf(s[1..], c);
      assert s[1..][..i+1] == s[1..i+2] && s[..i+2] == [s[0]] + s[1..i+2] by {
        if i >= 0 { assert s[..i+2] == [s[0]] + s[1..][..i+1]; }
      }
      if i == -1 then -1 else i + 1
  }

  /** Kotlin's `substringBefore(c)`: the text before the first `c`, or all of `s`. */
  function SubstringBefore(s: string, c: char): string {
    var i := IndexOf(s, c);
    if i == -1 then s else s[..i]
  }

  /** Kotlin's `substringAfter(c)`: the text after the first `c`, or all of `s`. */
  function SubstringAfter(s: string, c: char): string {
    var i := IndexOf(s, c);
    if i == -1 then s else s[i + 1..]
  }

  /** Splitting at the first delimiter is undone by putting it back. */
  lemma SubstringAround(s: string, c: char)
    ensures c !in SubstringBefore(s, c)
    ensures c in s ==> s == SubstringBefore(s, c) + [c] + SubstringAfter(s, c)
    ensures c !in s ==> SubstringBefore(s, c) == s && SubstringAfter(s, c) == s
  {
    var i := IndexOf(s, c);
    if i >= 0 {
      assert s == s[..i] + [c] + s[i + 1..];
    }
  }

  /** The text before the first `c` of `w + [c] + rest` is `w`, when `w` holds no `c`. */
  lemma SubstringOfJoined(w: string, c: char, rest: string)
    requires c !in w
    ensures SubstringBefore(w + [c] + rest, c) == w
    ensures SubstringAfter(w + [c] + rest, c) == rest
  {
    var s := w + [c] + rest;
    IndexOfPrefix(w, c, [c] + rest);
    assert s == w + ([c] + rest);
    assert s[..|w|] == w;
    assert s[|w| + 1..] == rest;
  }

  lemma {:induction false} IndexOfPrefix(w: string, c: char, rest: string)
    requires c !in w && |rest| > 0 && rest[0] == c
    ensures IndexOf(w + rest, c) == |w|
  {
    if |w| > 0 {
      assert (w + rest)[1..] == w[1..] + rest;
      IndexOfPrefix(w[1..], c, rest);
    } else {
      assert w + rest == rest;
    }
  }

  /** Kotlin's `split(c)`: every segment between delimiters, empty ones included. */
  function Split(s: string, c: char): (r: seq<string>)
    ensures |r| >= 1
    decreases |s|
  {
    var i := IndexOf(s, c);
    if i == -1 then [s] else [s[..i]] + Split(s[i + 1..], c)
  }

  /** Kotlin's `joinToString(separator)`. */
  function JoinToString(parts: seq<string>, sep: string): string {
    if |parts| == 0 then ""
    else if |parts| == 1 then parts[0]
    else parts[0] + sep + JoinToString(parts[1..], sep)
  }

  /** No segment of a split holds the delimiter. */
  lemma {:induction false} SplitSegmentsLackDelimiter(s: string, c: char)
    ensures forall k | 0 <= k < |Split(s, c)| :: c !in Split(s, c)[k]
    decreases |s|
  {
    var i := IndexOf(s, c);
    if i >= 0 {
      SplitSegmentsLackDelimiter(s[i + 1..], c);
    }
  }

  /** The segments of a blank text are blank. */
  lemma {:induction false} SplitOfBlank(s: string, c: char)
    requires IsBlank(s)
    ensures forall k | 0 <= k < |Split(s, c)| :: IsBlank(Split(s, c)[k])
    decreases |s|
  {
    var i := IndexOf(s, c);
    if i >= 0 {
      assert IsBlank(s[i + 1..]) by {
        var t := s[i + 1..];
        assert forall j | 0 <= j < |t| :: t[j] == s[i + 1 + j];
      }
      SplitOfBlank(s[i + 1..], c);
      assert IsBlank(s[..i]) by {
        assert forall j | 0 <= j < i :: s[..i][j] == s[j];
      }
    }
  }

  /** Joining the segments with the delimiter gives back the original text. */
  lemma {:induction false} JoinSplit(s: string, c: char)
    ensures JoinToString(Split(s, c), [c]) == s
    decreases |s|
  {
    var i := IndexOf(s, c);
    if i >= 0 {
      var head, rest := s[..i], s[i + 1..];
      var tailParts := Split(rest, c);
      assert Split(s, c) == [head] + tailParts;
      JoinSplit(rest, c);
      JoinCons(head, tailParts, [c]);
      assert JoinToString(Split(s, c), [c]) == head + [c] + rest;
      SubstringAround(s, c);
    }
  }

  lemma JoinCons(head: string, tail: seq<string>, sep: string)
    requires |tail| > 0
    ensures JoinToString([head] + tail, sep) == head + sep + JoinToString(tail, sep)
  {
    assert ([head] + tail)[1..] == tail;
  }

  /** Splitting a join of delimiter-free parts gives back the parts. */
  lemma {:induction false} SplitJoin(parts: seq<string>, c: char)
    requires |parts| > 0
    requires forall k | 0 <= k < |parts| :: c !in parts[k]
    ensures Split(JoinToString(parts, [c]), c) == parts
    decreases |parts|
  {
    if |parts| == 1 {
      assert IndexOf(parts[0], c) == -1;
    } else {
      var p0 := parts[0];
      var tail := JoinToString(parts[1..], [c]);
      var s := p0 + [c] + tail;
      assert JoinToString(parts, [c]) == s;
      SplitJoin(parts[1..], c);
      IndexOfPrefix(p0, c, [c] + tail);
      assert s == p0 + ([c] + tail);
      assert IndexOf(s, c) == |p0|;
      assert s[..|p0|] == p0;
      assert s[|p0| + 1..] == tail;
      assert Split(s, c) == [p0] + Split(tail, c);
      assert parts == [p0] + parts[1..];
    }
  }

  /** `joinToString` distributes over concatenation of the joined lists. */
  lemma {:induction false} JoinAppend(a: seq<string>, b: seq<string>, sep: string)
    requires |a| > 0 && |b| > 0
    ensures JoinToString(a + b, sep) == JoinToString(a, sep) + sep + JoinToString(b, sep)
    decreases |a|
  {
    if |a| == 1 {
      assert (a + b)[1..] == b;
    } else {
      assert (a + b)[1..] == a[1..] + b;
      JoinAppend(a[1..], b, sep);
    }
  }

  /** Kotlin's `trimStart()` with `isWhitespace`. */
  function TrimStart(s: string): string {
    if |s| > 0 && IsWhitespace(s[0]) then TrimStart(s[1..]) else s
  }

  /** Kotlin's `trimEnd()` with `isWhitespace`. */
  function TrimEnd(s: string): string {
    if |s| > 0 && IsWhitespace(s[|s| - 1]) then TrimEnd(s[..|s| - 1]) else s
  }

  /** Kotlin's `trim()`: whitespace removed from both ends. */
  function Trim(s: string): string {
    TrimEnd(TrimStart(s))
  }

  /**
   * The trimmed text is a slice of the original that neither starts nor ends
   * with whitespace, and is empty exactly when the original is blank.
   */
  lemma TrimProperties(s: string)
    ensures exists i, j | 0 <= i <= j <= |s| :: Trim(s) == s[i..j]
    ensures |Trim(s)| > 0 ==> !IsWhitespace(Trim(s)[0]) && !IsWhitespace(Trim(s)[|Trim(s)| - 1])
    ensures IsBlank(Trim(s)) <==> IsBlank(s)
  {
    var i := TrimStartSlice(s);
    var j := TrimEndSlice(TrimStart(s));
    assert Trim(s) == s[i..][..j] == s[i..i + j];
    if |Trim(s)| > 0 {
      TrimEndKeepsFirst(TrimStart(s));
      assert !IsWhitespace(Trim(s)[0]);
    }
    if !IsBlank(s) {
      var k :| 0 <= k < |s| && !IsWhitespace(s[k]);
      assert i <= k;
      assert s[i..][k - i] == s[k];
      assert k - i < j;
      assert Trim(s)[k - i] == s[k];
    }
  }

  lemma {:induction false} TrimStartSlice(s: string) returns (i: nat)
    ensures i <= |s| && TrimStart(s) == s[i..]
    ensures forall k | 0 <= k < i :: IsWhitespace(s[k])
    ensures i < |s| ==> !IsWhitespace(s[i])
    decreases |s|
  {
    if |s| > 0 && IsWhitespace(s[0]) {
      var i' := TrimStartSlice(s[1..]);
      i := i' + 1;
      assert s[1..][i'..] == s[i..];
      forall k | 0 <= k < i ensures IsWhitespace(s[k]) {
        if k > 0 { assert s[k] == s[1..][k - 1]; }
      }
    } else {
      i := 0;
    }
  }

  lemma {:induction false} TrimEndSlice(s: string) returns (j: nat)
    ensures j <= |s| && TrimEnd(s) == s[..j]
    ensures forall k | j <= k < |s| :: IsWhitespace(s[k])
    ensures j > 0 ==> !IsWhitespace(s[j - 1])
    decreases |s|
  {
    if |s| > 0 && IsWhitespace(s[|s| - 1]) {
      var s' := s[..|s| - 1];
      j := TrimEndSlice(s');
      assert s'[..j] == s[..j];
      forall k | j <= k < |s| ensures IsWhitespace(s[k]) {
        if k < |s| - 1 { assert s[k] == s'[k]; }
      }
    } else {
      j := |s|;
    }
  }

  lemma TrimEndKeepsFirst(s: string)
    requires |s| > 0 && !IsWhitespace(s[0])
    ensures |TrimEnd(s)| > 0 && TrimEnd(s)[0] == s[0]
  {
    var j := TrimEndSlice(s);
    assert !IsWhitespace(s[0]);
    assert j > 0;
  }

  /** Kotlin's `replace(from, to)` on characters: every `from` becomes `to`. */
  function ReplaceChar(s: string, from: char, to: char): (r: string)
    ensures |r| == |s|
    ensures from != to ==> from !in r
    ensures forall k | 0 <= k < |s| :: r[k] == if s[k] == from then to else s[k]
  {
    if |s| == 0 then ""
    else [if s[0] == from then to else s[0]] + ReplaceChar(s[1..], from, to)
  }

  /** The decimal digits of a natural number, as `Int.toString` prints it. */
  function NatToString(n: nat): (r: string)
    ensures |r| > 0
    ensures forall k | 0 <= k < |r| :: '0' <= r[k] <= '9'
    ensures DecimalValue(r) == n
    ensures r[0] == '0' <==> n == 0
    ensures |r| > 1 ==> r[0] != '0'
  {
    if n < 10 then [Digit(n)]
    else
      var prefix := NatToString(n / 10);
      DecimalValueAppend(prefix, Digit(n % 10));
      prefix + [Digit(n % 10)]
  }

  function Digit(d: nat): (c: char)
    requires d < 10
    ensures '0' <= c <= '9' && c as int - '0' as int == d
  {
    ('0' as int + d) as char
  }

  /** The number a string of decimal digits denotes. */
  function DecimalValue(s: string): int {
    if |s| == 0 then 0 else 10 * DecimalValue(s[..|s| - 1]) + (s[|s| - 1] as int - '0' as int)
  }

  lemma DecimalValueAppend(s: string, c: char)
    ensures DecimalValue(s + [c]) == 10 * DecimalValue(s) + (c as int - '0' as int)
  {
    assert (s + [c])[..|s|] == s;
  }

  /** Kotlin's `String.compareTo(other) <= 0`: lexicographic order on characters. */
  predicate LexLe(a: string, b: string) {
    if |a| == 0 then true
    else if |b| == 0 then false
    else if a[0] != b[0] then a[0] < b[0]
    else LexLe(a[1..], b[1..])
  }

  lemma {:induction false} LexLeTotal(a: string, b: string)
    ensures LexLe(a, b) || LexLe(b, a)
  {
    if |a| > 0 && |b| > 0 && a[0] == b[0] {
      LexLeTotal(a[1..], b[1..]);
    }
  }

  lemma {:induction false} LexLeTransitive(a: string, b: string, c: string)
    requires LexLe(a, b) && LexLe(b, c)
    ensures LexLe(a, c)
  {
    if |a| > 0 && |b| > 0 && |c| > 0 && a[0] == b[0] == c[0] {
      LexLeTransitive(a[1..], b[1..], c[1..]);
    }
  }

  lemma {:induction false} LexLeAntisymmetric(a: string, b: string)
    requires LexLe(a, b) && LexLe(b, a)
    ensures a == b
  {
    if |a| > 0 && |b| > 0 {
      LexLeAntisymmetric(a[1..], b[1..]);
      assert a == [a[0]] + a[1..];
      assert b == [b[0]] + b[1..];
    }
  }

  /**
   * The UTF-16 code units of a string, as a JVM `String` stores it: one unit
   * for a character of the Basic Multilingual Plane, a surrogate pair otherwise.
   */
  function Utf16Units(s: string): (r: seq<int>)
    ensures forall k | 0 <= k < |r| :: 0 <= r[k] < 0x1_0000
    ensures |s| <= |r| <= 2 * |s|
  {
    if |s| == 0 then []
    else
      var c := s[0] as int;
      (if c < 0x1_0000 then [c]
       else [0xD800 + (c - 0x1_0000) / 0x400, 0xDC00 + (c - 0x1_0000) % 0x400]) + Utf16Units(s[1..])
  }
}
