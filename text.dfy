/** Character classes and the string operations the core applies to user text. */
module Text {

  /** Python's `str.isspace()`: the characters `str.strip()` removes. */
  predicate IsSpace(c: char) {
    ('\t' <= c <= '\r') || ('\U{1C}' <= c <= '\U{1F}') || c == ' ' ||
    c == '\U{85}' || c == '\U{A0}' || c == '\U{1680}' ||
    ('\U{2000}' <= c <= '\U{200A}') || c == '\U{2028}' || c == '\U{2029}' ||
    c == '\U{202F}' || c == '\U{205F}' || c == '\U{3000}'
  }

  predicate IsUpper(c: char) { 'A' <= c <= 'Z' }

  predicate IsLower(c: char) { 'a' <= c <= 'z' }

  predicate IsDigit(c: char) { '0' <= c <= '9' }

  predicate AllDigits(s: string) {
    forall i :: 0 <= i < |s| ==> IsDigit(s[i])
  }

  /** True when every character is whitespace (this includes the empty string). */
  predicate IsBlank(s: string) {
    forall i :: 0 <= i < |s| ==> IsSpace(s[i])
  }

  /** `s.replace(" ", "")`: removes the space character U+0020 and nothing else. */
  function RemoveSpaces(s: string): (r: string)
    ensures ' ' !in r
    ensures forall c :: c != ' ' ==> multiset(r)[c] == multiset(s)[c]
    ensures ' ' !in s ==> r == s
  {
    if s == [] then []
    else
      assert s == [s[0]] + s[1..];
      (if s[0] == ' ' then [] else [s[0]]) + RemoveSpaces(s[1..])
  }

  /** Removing spaces works piece by piece: on a concatenation it is the concatenation of
      the results. */
  lemma {:induction false} RemoveSpacesConcat(a: string, b: string)
    ensures RemoveSpaces(a + b) == RemoveSpaces(a) + RemoveSpaces(b)
    decreases |a|
  {
    if a == [] {
      assert a + b == b;
    } else {
      var ab := a + b;
      assert ab[0] == a[0] && ab[1..] == a[1..] + b;
      RemoveSpacesStep(ab);
      RemoveSpacesStep(a);
      RemoveSpacesConcat(a[1..], b);
      Associative(if a[0] == ' ' then [] else [a[0]], RemoveSpaces(a[1..]), RemoveSpaces(b));
    }
  }

  /** Concatenation is associative. Kept apart from `RemoveSpacesConcat` so that regrouping the
      three pieces there does not bring `RemoveSpaces`'s contract into play on each of them. */
  lemma Associative(x: string, y: string, z: string)
    ensures x + (y + z) == (x + y) + z
  {
  }

  /** One step of the recursion, for non-empty text. */
  lemma RemoveSpacesStep(s: string)
    requires s != []
    ensures RemoveSpaces(s) == (if s[0] == ' ' then [] else [s[0]]) + RemoveSpaces(s[1..])
  {
  }

  /** On one character: a space is dropped, any other character is kept. */
  lemma RemoveSpacesChar(c: char)
    ensures RemoveSpaces([c]) == if c == ' ' then [] else [c]
  {
    assert [c][1..] == [];
  }

  /** Drops the leading characters that satisfy `space`. */
  function TrimStart(s: string, space: char -> bool): (r: string)
    ensures |r| <= |s| && r == s[|s| - |r|..]
    ensures r == [] || !space(r[0])
    ensures forall i :: 0 <= i < |s| - |r| ==> space(s[i])
  {
    if s != [] && space(s[0]) then TrimStart(s[1..], space) else s
  }

  /** Drops the trailing characters that satisfy `space`. */
  function TrimEnd(s: string, space: char -> bool): (r: string)
    ensures |r| <= |s| && r == s[..|r|]
    ensures r == [] || !space(r[|r| - 1])
    ensures forall i :: |r| <= i < |s| ==> space(s[i])
  {
    if s != [] && space(s[|s| - 1]) then TrimEnd(s[..|s| - 1], space) else s
  }

  /** `s` without its leading and its trailing characters that satisfy `space`. */
  function StripWith(s: string, space: char -> bool): (r: string)
    ensures r == [] <==> forall i :: 0 <= i < |s| ==> space(s[i])
    ensures r != [] ==> !space(r[0]) && !space(r[|r| - 1])
    ensures (s == [] || (!space(s[0]) && !space(s[|s| - 1]))) ==> r == s
  {
    var t := TrimStart(s, space);
    TrimEnd(t, space)
  }

  /** `s.strip()`: `s` without its leading and its trailing whitespace. */
  function Strip(s: string): (r: string)
    ensures r == [] <==> IsBlank(s)
    ensures r != [] ==> !IsSpace(r[0]) && !IsSpace(r[|r| - 1])
    ensures (s == [] || (!IsSpace(s[0]) && !IsSpace(s[|s| - 1]))) ==> r == s
  {
    StripWith(s, IsSpace)
  }

  /** ASCII lower-casing; every other character is kept as it is. */
  function AsciiLower(s: string): (r: string)
    ensures |r| == |s|
    ensures forall i :: 0 <= i < |s| ==> r[i] == if IsUpper(s[i]) then s[i] - 'A' + 'a' else s[i]
  {
    if s == [] then []
    else [if IsUpper(s[0]) then s[0] - 'A' + 'a' else s[0]] + AsciiLower(s[1..])
  }

  /** Length of the longest prefix of `s` whose characters all satisfy `p` (a greedy `p*`). */
  function SpanWhile(s: string, p: char -> bool): (n: nat)
    ensures n <= |s|
    ensures forall k :: 0 <= k < n ==> p(s[k])
    ensures n == |s| || !p(s[n])
  {
    if s != [] && p(s[0]) then 1 + SpanWhile(s[1..], p) else 0
  }

  /** A greedy run stops exactly where the first character that fails `p` follows a full run. */
  lemma {:induction false} SpanWhileConcat(a: string, b: string, p: char -> bool)
    requires forall k :: 0 <= k < |a| ==> p(a[k])
    requires b == [] || !p(b[0])
    ensures SpanWhile(a + b, p) == |a|
  {
    if a != [] {
      assert (a + b)[1..] == a[1..] + b;
      SpanWhileConcat(a[1..], b, p);
    }
  }

  /** `strip()` keeps one contiguous piece of the text, and everything it drops before and
      after that piece is whitespace. */
  lemma StripSlice(s: string)
    ensures exists i, j ::
      && 0 <= i <= j <= |s| && Strip(s) == s[i..j]
      && (forall k :: 0 <= k < i ==> IsSpace(s[k]))
      && (forall k :: j <= k < |s| ==> IsSpace(s[k]))
  {
    var i, j := StripWithSlice(s, IsSpace);
  }

  /** The slice that `StripWith` keeps, and the characters it drops on either side. */
  lemma StripWithSlice(s: string, space: char -> bool) returns (i: int, j: int)
    ensures 0 <= i <= j <= |s| && StripWith(s, space) == s[i..j]
    ensures forall k :: 0 <= k < i ==> space(s[k])
    ensures forall k :: j <= k < |s| ==> space(s[k])
  {
    var t := TrimStart(s, space);
    i := |s| - |t|;
    j := i + |TrimEnd(t, space)|;
    assert t == s[i..];
    forall k | j <= k < |s| ensures space(s[k]) {
      assert s[k] == t[k - i];
    }
  }
}
