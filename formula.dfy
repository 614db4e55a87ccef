/** The lexical layer of composition parsing: what the two regular-expression `findall`
    calls of `parse_alloy_composition` return, as a hand-written scanner. */
module Formula {
  import opened Text
  import opened Numerals

  /** One match of the formula pattern: a parenthesised group (its body and its
      multiplier digits) or an element symbol with its count text. */
  datatype Token = Group(inner: string, multiplier: string) | Element(symbol: string, count: string)

  /** The characters a group body may hold: `[A-Za-z0-9.]`. */
  predicate IsInnerChar(c: char) { IsUpper(c) || IsLower(c) || IsDigit(c) || c == '.' }

  /** An element symbol: `[A-Z][a-z]*`. */
  predicate IsSymbol(s: string) {
    s != [] && IsUpper(s[0]) && forall k :: 1 <= k < |s| ==> IsLower(s[k])
  }

  /** What a match can look like: the shape each capture group of the pattern allows. */
  predicate WellFormed(t: Token) {
    match t
    case Group(inner, multiplier) =>
      inner != [] && (forall k :: 0 <= k < |inner| ==> IsInnerChar(inner[k])) && AllDigits(multiplier)
    case Element(symbol, count) =>
      IsSymbol(symbol) && IsDecimalText(count)
  }

  predicate AllWellFormed(ts: seq<Token>) {
    forall i :: 0 <= i < |ts| ==> WellFormed(ts[i])
  }

  predicate NoGroups(ts: seq<Token>) {
    forall i :: 0 <= i < |ts| ==> ts[i].Element?
  }

  /** Length of the greedy count `\d*\.?\d*` at the start of `s`. */
  function CountLength(s: string): (n: nat)
    ensures n <= |s|
  {
    var a := SpanWhile(s, IsDigit);
    if a < |s| && s[a] == '.' then a + 1 + SpanWhile(s[a + 1..], IsDigit) else a
  }

  /** What the count pattern takes is decimal text. */
  lemma CountLengthDecimal(s: string)
    ensures IsDecimalText(s[..CountLength(s)])
  {
    var a := SpanWhile(s, IsDigit);
    assert AllDigits(s[..a]);
    if a < |s| && s[a] == '.' {
      var b := SpanWhile(s[a + 1..], IsDigit);
      PrefixAroundDot(s, a, b);
      DecimalTextWithDot(s[..a], s[a + 1..][..b]);
      assert CountLength(s) == a + 1 + b;
    } else {
      DecimalTextOfDigits(s[..a]);
      assert CountLength(s) == a;
    }
  }

  /** A prefix reaching past a '.' at `a` is the text before it, the '.', and what follows. */
  lemma PrefixAroundDot(s: string, a: nat, b: nat)
    requires a < |s| && s[a] == '.' && b <= |s| - (a + 1)
    ensures s[..a + 1 + b] == s[..a] + "." + s[a + 1..][..b]
  {
    var lhs, rhs := s[..a + 1 + b], s[..a] + "." + s[a + 1..][..b];
    assert |lhs| == |rhs|;
    forall k | 0 <= k < |lhs| ensures lhs[k] == rhs[k] {
      if k > a {
        assert rhs[k] == s[a + 1..][..b][k - a - 1];
      }
    }
  }

  /** True when a '(' at the start of `s` opens a group the pattern accepts: a non-empty
      run of body characters followed by ')'. */
  predicate ClosesGroup(s: string)
    requires s != []
  {
    var n := SpanWhile(s[1..], IsInnerChar);
    n > 0 && n + 1 < |s| && s[n + 1] == ')'
  }

  /** The group alternative at the start of `s`: the token and the length it consumes. */
  function GroupAt(s: string): (r: (Token, nat))
    requires s != [] && s[0] == '(' && ClosesGroup(s)
    ensures r.0.Group? && WellFormed(r.0)
    ensures 0 < r.1 <= |s|
  {
    var n := SpanWhile(s[1..], IsInnerChar);
    var after := s[n + 2..];
    var m := SpanWhile(after, IsDigit);
    var multiplier := after[..m];
    assert AllDigits(multiplier);
    (Group(s[1..n + 1], multiplier), n + 2 + m)
  }

  /** The element alternative at the start of `s`: the token and the length it consumes. */
  function ElementAt(s: string): (r: (Token, nat))
    requires s != [] && IsUpper(s[0])
    ensures r.0.Element? && WellFormed(r.0)
    ensures 0 < r.1 <= |s|
  {
    var n := SpanWhile(s[1..], IsLower);
    var after := s[n + 1..];
    var c := CountLength(after);
    CountLengthDecimal(after);
    (Element(s[..n + 1], after[..c]), n + 1 + c)
  }

  /** All non-overlapping matches, left to right. At each position the group alternative
      (when `groups` holds) is tried first, then the element alternative; a character where
      neither matches is skipped. */
  function Scan(s: string, groups: bool): (ts: seq<Token>)
    ensures AllWellFormed(ts)
    ensures !groups ==> NoGroups(ts)
    decreases |s|
  {
    if s == [] then []
    else if groups && s[0] == '(' && ClosesGroup(s) then
      var r := GroupAt(s);
      [r.0] + Scan(s[r.1..], groups)
    else if IsUpper(s[0]) then
      var r := ElementAt(s);
      [r.0] + Scan(s[r.1..], groups)
    else
      Scan(s[1..], groups)
  }

  /** `re.findall` with the full pattern (groups and elements). */
  function Tokens(s: string): seq<Token> {
    Scan(s, true)
  }

  /** `re.findall` with the element pattern alone, as applied to a group body. */
  function ElementTokens(s: string): seq<Token> {
    Scan(s, false)
  }

  /** The text a token was matched from. */
  function TokenText(t: Token): string {
    match t
    case Group(inner, multiplier) => "(" + inner + ")" + multiplier
    case Element(symbol, count) => symbol + count
  }

  /** A formula written out from its tokens. */
  function Render(ts: seq<Token>): string {
    if ts == [] then "" else TokenText(ts[0]) + Render(ts[1..])
  }

  /** A rendered formula starts where a token starts: at a '(' or an upper-case letter. */
  predicate StartsToken(s: string) {
    s == [] || s[0] == '(' || IsUpper(s[0])
  }

  lemma RenderStartsToken(ts: seq<Token>)
    requires AllWellFormed(ts)
    ensures StartsToken(Render(ts))
  {
    if ts != [] {
      assert WellFormed(ts[0]);
      assert Render(ts)[0] == TokenText(ts[0])[0];
    }
  }

  /** Digits followed by the start of the next token: the count is the digits. */
  lemma CountLengthOfDigits(a: string, rest: string)
    requires AllDigits(a) && StartsToken(rest)
    ensures CountLength(a + rest) == |a|
  {
    SpanWhileConcat(a, rest, IsDigit);
  }

  /** Digits, '.', digits, then the start of the next token: the count is all three. */
  lemma CountLengthOfDotted(a: string, b: string, rest: string)
    requires AllDigits(a) && AllDigits(b) && StartsToken(rest)
    ensures CountLength(a + "." + b + rest) == |a| + 1 + |b|
  {
    var s := a + "." + b + rest;
    var tail := "." + b + rest;
    assert s == a + tail;
    SpanWhileConcat(a, tail, IsDigit);
    assert s[|a|] == '.';
    assert s[|a| + 1..] == b + rest;
    SpanWhileConcat(b, rest, IsDigit);
  }

  /** A count followed by the start of the next token is read up to its end. */
  lemma CountLengthBeforeToken(c: string, rest: string)
    requires IsDecimalText(c)
    requires StartsToken(rest)
    ensures CountLength(c + rest) == |c|
  {
    var d := DotIndex(c);
    if d == |c| {
      assert c[..d] == c;
      CountLengthOfDigits(c, rest);
    } else {
      var a, b := c[..d], c[d + 1..];
      assert c == a + "." + b;
      assert c + rest == a + "." + b + rest;
      CountLengthOfDotted(a, b, rest);
    }
  }

  /** A count followed by the start of the next token does not go on with a lower-case letter. */
  lemma CountThenNoLower(count: string, rest: string)
    requires IsDecimalText(count) && StartsToken(rest)
    ensures count + rest == [] || !IsLower((count + rest)[0])
  {
    if count != [] {
      var d := DotIndex(count);
      if d > 0 { assert count[0] == count[..d][0]; }
    }
  }

  /** Scanning reads back one element token and leaves the text after it. */
  lemma ScanElement(symbol: string, count: string, rest: string, groups: bool)
    requires WellFormed(Element(symbol, count)) && StartsToken(rest)
    ensures Scan(symbol + count + rest, groups) == [Element(symbol, count)] + Scan(rest, groups)
  {
    var s := symbol + count + rest;
    assert s[0] == symbol[0];
    ElementAtText(symbol, count, rest);
    assert s[|symbol| + |count|..] == rest;
  }

  /** The element alternative, given where its symbol and its count end. */
  lemma ElementAtOf(s: string, n: nat, c: nat)
    requires s != [] && IsUpper(s[0])
    requires n == SpanWhile(s[1..], IsLower)
    requires c == CountLength(s[n + 1..])
    ensures ElementAt(s) == (Element(s[..n + 1], s[n + 1..][..c]), n + 1 + c)
  {
    var after := s[n + 1..];
    assert CountLength(after) == c;
  }

  /** In `symbol + count + rest` the symbol's lower-case letters stop where the count starts. */
  lemma SymbolSpan(symbol: string, count: string, rest: string, s: string)
    requires WellFormed(Element(symbol, count)) && StartsToken(rest)
    requires s == symbol + count + rest
    ensures s != [] && IsUpper(s[0])
    ensures SpanWhile(s[1..], IsLower) == |symbol| - 1 && s[..|symbol|] == symbol
  {
    var after := count + rest;
    assert s == symbol + after;
    assert s[0] == symbol[0];
    assert s[1..] == symbol[1..] + after;
    CountThenNoLower(count, rest);
    SpanWhileConcat(symbol[1..], after, IsLower);
  }

  /** In `symbol + count + rest` the count pattern takes exactly `count`. */
  lemma CountSpan(symbol: string, count: string, rest: string, s: string)
    requires IsDecimalText(count) && StartsToken(rest)
    requires s == symbol + count + rest
    ensures CountLength(s[|symbol|..]) == |count| && s[|symbol|..][..|count|] == count
  {
    var after := count + rest;
    assert s[|symbol|..] == after;
    CountLengthBeforeToken(count, rest);
    assert after[..|count|] == count;
  }

  lemma ElementAtText(symbol: string, count: string, rest: string)
    requires WellFormed(Element(symbol, count)) && StartsToken(rest)
    ensures symbol + count + rest != [] && IsUpper((symbol + count + rest)[0])
    ensures ElementAt(symbol + count + rest) == (Element(symbol, count), |symbol| + |count|)
  {
    var s := symbol + count + rest;
    SymbolSpan(symbol, count, rest, s);
    CountSpan(symbol, count, rest, s);
    ElementAtOf(s, |symbol| - 1, |count|);
  }

  /** Scanning with groups reads back one group token and leaves the text after it. */
  lemma ScanGroup(inner: string, multiplier: string, rest: string)
    requires WellFormed(Group(inner, multiplier)) && StartsToken(rest)
    ensures Scan("(" + inner + ")" + multiplier + rest, true) == [Group(inner, multiplier)] + Scan(rest, true)
  {
    var s := "(" + inner + ")" + multiplier + rest;
    GroupAtText(inner, multiplier, rest);
    assert s[|inner| + 2 + |multiplier|..] == rest;
  }

  lemma GroupAtText(inner: string, multiplier: string, rest: string)
    requires WellFormed(Group(inner, multiplier)) && StartsToken(rest)
    ensures "(" + inner + ")" + multiplier + rest != []
    ensures ("(" + inner + ")" + multiplier + rest)[0] == '('
    ensures ClosesGroup("(" + inner + ")" + multiplier + rest)
    ensures GroupAt("(" + inner + ")" + multiplier + rest) == (Group(inner, multiplier), |inner| + 2 + |multiplier|)
  {
    var s := "(" + inner + ")" + multiplier + rest;
    GroupAtBody(inner, multiplier, rest);
    SpanWhileConcat(multiplier, rest, IsDigit);
    assert (multiplier + rest)[..|multiplier|] == multiplier;
  }

  /** The body run of a written group stops at its ')', and the multiplier and the rest follow. */
  lemma GroupAtBody(inner: string, multiplier: string, rest: string)
    requires WellFormed(Group(inner, multiplier))
    ensures var s := "(" + inner + ")" + multiplier + rest;
      && s != [] && s[0] == '(' && |inner| + 1 < |s| && s[|inner| + 1] == ')'
      && SpanWhile(s[1..], IsInnerChar) == |inner|
      && s[1..|inner| + 1] == inner && s[|inner| + 2..] == multiplier + rest
  {
    var s := "(" + inner + ")" + multiplier + rest;
    assert s[1..] == inner + (")" + multiplier + rest);
    SpanWhileConcat(inner, ")" + multiplier + rest, IsInnerChar);
  }

  /** Scanning reads back any one well-formed token and leaves the text after it. */
  lemma ScanToken(t: Token, rest: string, groups: bool)
    requires WellFormed(t) && StartsToken(rest)
    requires groups || t.Element?
    ensures Scan(TokenText(t) + rest, groups) == [t] + Scan(rest, groups)
  {
    match t
    case Group(inner, multiplier) =>
      assert TokenText(t) + rest == "(" + inner + ")" + multiplier + rest;
      ScanGroup(inner, multiplier, rest);
    case Element(symbol, count) =>
      assert TokenText(t) + rest == symbol + count + rest;
      ScanElement(symbol, count, rest, groups);
  }

  lemma RenderCons(ts: seq<Token>)
    requires ts != []
    ensures Render(ts) == TokenText(ts[0]) + Render(ts[1..])
  {
  }

  /** The first token and the rest of a well-formed sequence keep its shape. */
  lemma SplitWellFormed(ts: seq<Token>, groups: bool)
    requires ts != [] && AllWellFormed(ts) && (groups || NoGroups(ts))
    ensures WellFormed(ts[0]) && (groups || ts[0].Element?)
    ensures AllWellFormed(ts[1..]) && (groups || NoGroups(ts[1..]))
  {
    var tail := ts[1..];
    forall i | 0 <= i < |tail| ensures WellFormed(tail[i]) && (groups || tail[i].Element?) {
      assert tail[i] == ts[i + 1];
    }
  }

  /** The scanner reads back every well-formed token sequence in written form
      (with `groups` off, every group-free one). */
  lemma {:induction false} ScanRender(ts: seq<Token>, groups: bool)
    requires AllWellFormed(ts)
    requires groups || NoGroups(ts)
    ensures Scan(Render(ts), groups) == ts
  {
    if ts != [] {
      var tail := ts[1..];
      SplitWellFormed(ts, groups);
      RenderStartsToken(tail);
      ScanRender(tail, groups);
      ScanRenderStep(ts, groups);
    }
  }

  /** Scanning the first token's text ahead of the rest's rendering reads that token, then
      whatever the rest reads back as. */
  lemma ScanRenderStep(ts: seq<Token>, groups: bool)
    requires ts != [] && WellFormed(ts[0]) && (groups || ts[0].Element?)
    requires StartsToken(Render(ts[1..])) && Scan(Render(ts[1..]), groups) == ts[1..]
    ensures Scan(Render(ts), groups) == ts
  {
    var head, rest := TokenText(ts[0]), Render(ts[1..]);
    RenderCons(ts);
    ScanToken(ts[0], rest, groups);
    assert Scan(head + rest, groups) == [ts[0]] + ts[1..];
    assert [ts[0]] + ts[1..] == ts;
  }

  predicate NoUpper(s: string) {
    forall k :: 0 <= k < |s| ==> !IsUpper(s[k])
  }

  /** Text without an upper-case letter yields no element token; only groups whose bodies
      have no upper-case letter either. */
  lemma {:induction false} ScanNoUpper(s: string, groups: bool)
    requires NoUpper(s)
    ensures forall i :: 0 <= i < |Scan(s, groups)| ==> Scan(s, groups)[i].Group? && NoUpper(Scan(s, groups)[i].inner)
    decreases |s|
  {
    if s != [] {
      if groups && s[0] == '(' && ClosesGroup(s) {
        var r := GroupAt(s);
        var n := SpanWhile(s[1..], IsInnerChar);
        var inner := s[1..n + 1];
        assert r.0.inner == inner;
        assert NoUpper(inner) by {
          forall k | 0 <= k < |inner| ensures !IsUpper(inner[k]) { assert inner[k] == s[k + 1]; }
        }
        var tail := s[r.1..];
        assert NoUpper(tail) by {
          forall k | 0 <= k < |tail| ensures !IsUpper(tail[k]) { assert tail[k] == s[k + r.1]; }
        }
        ScanNoUpper(tail, groups);
      } else {
        assert !IsUpper(s[0]);
        var tail := s[1..];
        assert NoUpper(tail) by {
          forall k | 0 <= k < |tail| ensures !IsUpper(tail[k]) { assert tail[k] == s[k + 1]; }
        }
        ScanNoUpper(tail, groups);
      }
    }
  }

  /** Count text holds no space. */
  lemma DecimalTextNoSpace(c: string)
    requires IsDecimalText(c)
    ensures ' ' !in c
  {
    var d := DotIndex(c);
    forall k | 0 <= k < |c| ensures c[k] != ' ' {
      if k < d {
        assert c[..d][k] == c[k];
      } else if k > d {
        assert c[d + 1..][k - d - 1] == c[k];
      }
    }
  }

  /** The text of a well-formed token holds no space. */
  lemma TokenTextNoSpace(t: Token)
    requires WellFormed(t)
    ensures ' ' !in TokenText(t)
  {
    match t
    case Group(inner, multiplier) =>
      assert ' ' !in inner by {
        forall k | 0 <= k < |inner| ensures inner[k] != ' ' { assert IsInnerChar(inner[k]); }
      }
      assert ' ' !in multiplier by {
        forall k | 0 <= k < |multiplier| ensures multiplier[k] != ' ' { assert IsDigit(multiplier[k]); }
      }
    case Element(symbol, count) =>
      assert ' ' !in symbol by {
        forall k | 0 <= k < |symbol| ensures symbol[k] != ' ' {
          if k > 0 { assert IsLower(symbol[k]); }
        }
      }
      DecimalTextNoSpace(count);
  }

  /** A formula written out from well-formed tokens holds no space. */
  lemma {:induction false} RenderNoSpace(ts: seq<Token>)
    requires AllWellFormed(ts)
    ensures ' ' !in Render(ts)
    decreases |ts|
  {
    if ts != [] {
      SplitWellFormed(ts, true);
      TokenTextNoSpace(ts[0]);
      RenderNoSpace(ts[1..]);
      RenderCons(ts);
    }
  }
}
