/** `parse_alloy_composition`: from a formula such as "Fe50Ni30(CrCo)20" to the share of
    each element in percent. */
module Composition {
  import opened Wrappers
  import opened Text
  import opened Numerals
  import opened PyFloat
  import opened Formula
  import opened Sums

  /** The exceptions the parser can raise. */
  datatype ParseError =
    | InvalidNumber   // float() refuses a count that is a lone "."
    | DivisionByZero  // a group body, or the whole formula, adds up to 0

  /** The amount a well-formed count text stands for: 1 when it is empty, its decimal
      value otherwise. */
  function Amount(count: string): (r: real)
    requires IsDecimalText(count) && count != "."
    ensures 0.0 <= r
  {
    if count == "" then 1.0 else DecimalValue(count)
  }

  /** The value of a map entry, 0 when the key is absent. */
  function Get(m: map<string, real>, k: string): real {
    if k in m then m[k] else 0.0
  }

  /** Every element token among `toks` has a count float() accepts: none is a lone ".". */
  predicate CountsConvert(toks: seq<Token>) {
    forall i :: 0 <= i < |toks| && toks[i].Element? ==> toks[i].count != "."
  }

  /** The map the first pass builds: each element token assigns its amount to its symbol. */
  function OuterCounts(toks: seq<Token>): map<string, real>
    requires AllWellFormed(toks) && CountsConvert(toks)
    decreases |toks|
  {
    if toks == [] then map[]
    else
      var m := OuterCounts(toks[..|toks| - 1]);
      var t := toks[|toks| - 1];
      if t.Element? then m[t.symbol := Amount(t.count)] else m
  }

  /** The group the first pass keeps: the last one among `toks`. */
  function LastGroup(toks: seq<Token>): (g: Option<Token>)
    ensures g.Some? ==> g.value.Group? && g.value in toks
    decreases |toks|
  {
    if toks == [] then None
    else if toks[|toks| - 1].Group? then Some(toks[|toks| - 1])
    else LastGroup(toks[..|toks| - 1])
  }

  /** The body of the kept group; empty when there is none. */
  function GroupBody(g: Option<Token>): string
    requires g.Some? ==> g.value.Group?
  {
    if g.Some? then g.value.inner else ""
  }

  /** The multiplier of the kept group: float() of its digits, 1 when it has none or when
      there is no group. */
  function GroupMultiplier(g: Option<Token>): (r: real)
    requires g.Some? ==> g.value.Group? && WellFormed(g.value)
    ensures 0.0 <= r
  {
    if g.None? then 1.0
    else
      AmountOfDigits(g.value.multiplier);
      Amount(g.value.multiplier)
  }

  /** The sum of the amounts of the element tokens among `toks`. */
  function InnerTotal(toks: seq<Token>): real
    requires AllWellFormed(toks) && CountsConvert(toks)
    decreases |toks|
  {
    if toks == [] then 0.0
    else
      var t := toks[|toks| - 1];
      InnerTotal(toks[..|toks| - 1]) + (if t.Element? then Amount(t.count) else 0.0)
  }

  /** `m` after the second pass: each element of the group body adds its share of the body,
      times the multiplier, to its symbol. */
  function AddGroup(m: map<string, real>, toks: seq<Token>, total: real, multiplier: real): map<string, real>
    requires AllWellFormed(toks) && CountsConvert(toks) && (toks != [] ==> total != 0.0)
    decreases |toks|
  {
    if toks == [] then m
    else
      var acc := AddGroup(m, toks[..|toks| - 1], total, multiplier);
      var t := toks[|toks| - 1];
      if t.Element? then AddShare(acc, t, total, multiplier) else acc
  }

  /** One element of the group body adds its share of the body, times the multiplier. */
  function AddShare(m: map<string, real>, t: Token, total: real, multiplier: real): map<string, real>
    requires WellFormed(t) && t.Element? && t.count != "." && total != 0.0
  {
    m[t.symbol := Get(m, t.symbol) + Share(Amount(t.count), total, multiplier)]
  }

  /** An element's share of the group: its part of the body's total, times the multiplier. */
  function Share(amount: real, total: real, multiplier: real): real
    requires total != 0.0
  {
    amount / total * multiplier
  }

  /** The amounts before rescaling, or the error raised on the way to them. */
  function RawCounts(toks: seq<Token>): Result<map<string, real>, ParseError>
    requires AllWellFormed(toks)
  {
    if !CountsConvert(toks) then Err(InvalidNumber)
    else
      var g := LastGroup(toks);
      var inner := ElementTokens(GroupBody(g));
      if !CountsConvert(inner) then Err(InvalidNumber)
      else
        var total := InnerTotal(inner);
        if inner != [] && total == 0.0 then Err(DivisionByZero)
        else Ok(AddGroup(OuterCounts(toks), inner, total, GroupMultiplier(g)))
  }

  /** Rescaling every amount to a percentage of the total. */
  ghost function Normalize(raw: map<string, real>): Result<map<string, real>, ParseError> {
    var total := Sum(raw);
    if raw != map[] && total == 0.0 then Err(DivisionByZero)
    else Ok(map k | k in raw :: raw[k] / total * 100.0)
  }

  ghost function FromTokens(toks: seq<Token>): Result<map<string, real>, ParseError>
    requires AllWellFormed(toks)
  {
    var raw :- RawCounts(toks);
    Normalize(raw)
  }

  /** What parsing `formula` yields. */
  ghost function CompositionOf(formula: string): Result<map<string, real>, ParseError> {
    FromTokens(Tokens(RemoveSpaces(formula)))
  }

  /** float() accepts a non-empty count text unless it is a lone ".", and yields its
      amount. */
  lemma FloatOfCount(c: string)
    requires IsDecimalText(c) && c != ""
    ensures ParseFloat(c) == if c == "." then None else Some(Finite(Amount(c)))
  {
    ParseFloatOfDecimalText(c);
  }

  /** A multiplier (digits only) always has an amount. */
  lemma AmountOfDigits(m: string)
    ensures AllDigits(m) ==> IsDecimalText(m) && m != "."
  {
    if AllDigits(m) {
      DecimalTextOfDigits(m);
      if m != [] {
        assert IsDigit(m[0]);
      }
    }
  }

  /** `float(count) if count else 1`, with float() raising as None. */
  method ConvertCount(count: string) returns (r: Option<real>)
    requires IsDecimalText(count)
    ensures r == if count == "." then None else Some(Amount(count))
  {
    if count == "" {
      return Some(1.0);
    }
    FloatOfCount(count);
    var f := ParseFloat(count);
    r := if f.Some? && f.value.Finite? then Some(f.value.value) else None;
  }

  /** What one more match does to the first pass. */
  lemma OuterStep(toks: seq<Token>, i: nat)
    requires i < |toks| && AllWellFormed(toks) && CountsConvert(toks[..i])
    requires toks[i].Element? ==> toks[i].count != "."
    ensures CountsConvert(toks[..i + 1])
    ensures OuterCounts(toks[..i + 1]) ==
      if toks[i].Element? then OuterCounts(toks[..i])[toks[i].symbol := Amount(toks[i].count)]
      else OuterCounts(toks[..i])
    ensures LastGroup(toks[..i + 1]) == if toks[i].Group? then Some(toks[i]) else LastGroup(toks[..i])
  {
    assert toks[..i + 1][..i] == toks[..i];
    assert toks[..i + 1][i] == toks[i];
  }

  /** The multiplier kept: 1 when there is no group or when its multiplier is empty, and
      otherwise what float() makes of its digits. */
  lemma GroupMultiplierValue(g: Option<Token>)
    requires g.Some? ==> g.value.Group? && WellFormed(g.value)
    ensures g.None? || g.value.multiplier == "" ==> GroupMultiplier(g) == 1.0
    ensures g.Some? && g.value.multiplier != "" ==> ParseFloat(g.value.multiplier) == Some(Finite(GroupMultiplier(g)))
  {
    if g.Some? && g.value.multiplier != "" {
      AmountOfDigits(g.value.multiplier);
      FloatOfCount(g.value.multiplier);
    }
  }

  /** The first pass after the first `i` matches: every count so far converts, and the
      counts, body and multiplier are those of that prefix. */
  predicate OuterState(matches: seq<Token>, i: nat, counts: map<string, real>, body: string, multiplier: real)
    requires i <= |matches| && AllWellFormed(matches)
  {
    && CountsConvert(matches[..i])
    && counts == OuterCounts(matches[..i])
    && (LastGroup(matches[..i]).Some? ==> WellFormed(LastGroup(matches[..i]).value))
    && body == GroupBody(LastGroup(matches[..i]))
    && multiplier == GroupMultiplier(LastGroup(matches[..i]))
  }

  /** One more match: a group replaces the body and the multiplier, an element sets its count. */
  lemma OuterAdvance(matches: seq<Token>, i: nat, counts: map<string, real>, body: string, multiplier: real,
                     counts': map<string, real>, body': string, multiplier': real)
    requires i < |matches| && AllWellFormed(matches) && OuterState(matches, i, counts, body, multiplier)
    requires matches[i].Element? ==> matches[i].count != "."
    requires matches[i].Group? ==>
      counts' == counts && body' == matches[i].inner && multiplier' == Amount(matches[i].multiplier)
    requires matches[i].Element? ==>
      counts' == counts[matches[i].symbol := Amount(matches[i].count)] && body' == body && multiplier' == multiplier
    ensures OuterState(matches, i + 1, counts', body', multiplier')
  {
    OuterStep(matches, i);
    assert WellFormed(matches[i]);
  }

  /** The first pass over the matches: outer counts, and the body and multiplier of the
      group kept. None when a count does not convert. */
  method OuterPass(matches: seq<Token>) returns (r: Option<(map<string, real>, string, real)>)
    requires AllWellFormed(matches)
    ensures r.Some? <==> CountsConvert(matches)
    ensures r.Some? ==> r.value == (OuterCounts(matches), GroupBody(LastGroup(matches)), GroupMultiplier(LastGroup(matches)))
  {
    var counts: map<string, real> := map[];
    var innerMultiplier := 1.0;
    var innerComposition := "";
    var i := 0;
    assert matches[..0] == [];
    while i < |matches|
      invariant 0 <= i <= |matches|
      invariant OuterState(matches, i, counts, innerComposition, innerMultiplier)
    {
      var t := matches[i];
      assert WellFormed(t);
      if t.Element? && t.count == "." {
        assert !CountsConvert(matches);
        return None;
      }
      ghost var (counts0, body0, multiplier0) := (counts, innerComposition, innerMultiplier);
      if t.Group? {
        innerComposition := t.inner;
        AmountOfDigits(t.multiplier);
        var m := ConvertCount(t.multiplier);
        innerMultiplier := m.value;
      } else {
        var amount := ConvertCount(t.count);
        counts := counts[t.symbol := amount.value];
      }
      OuterAdvance(matches, i, counts0, body0, multiplier0, counts, innerComposition, innerMultiplier);
      i := i + 1;
    }
    assert matches[..i] == matches;
    r := Some((counts, innerComposition, innerMultiplier));
  }

  /** What one more element does to the inner total. */
  lemma InnerStep(toks: seq<Token>, j: nat)
    requires j < |toks| && AllWellFormed(toks) && NoGroups(toks) && CountsConvert(toks[..j])
    requires toks[j].count != "."
    ensures CountsConvert(toks[..j + 1])
    ensures InnerTotal(toks[..j + 1]) == InnerTotal(toks[..j]) + Amount(toks[j].count)
  {
    assert toks[..j + 1][..j] == toks[..j];
    assert toks[..j + 1][j] == toks[j];
  }

  /** The sum over the group body's amounts; None when a count does not convert. */
  method InnerTotalPass(innerMatches: seq<Token>) returns (r: Option<real>)
    requires AllWellFormed(innerMatches) && NoGroups(innerMatches)
    ensures r.Some? <==> CountsConvert(innerMatches)
    ensures r.Some? ==> r.value == InnerTotal(innerMatches)
  {
    var innerTotal := 0.0;
    var j := 0;
    while j < |innerMatches|
      invariant 0 <= j <= |innerMatches|
      invariant CountsConvert(innerMatches[..j])
      invariant innerTotal == InnerTotal(innerMatches[..j])
    {
      var t := innerMatches[j];
      assert WellFormed(t) && t.Element?;
      var amount := ConvertCount(t.count);
      if amount.None? {
        assert !CountsConvert(innerMatches);
        return None;
      }
      InnerStep(innerMatches, j);
      innerTotal := innerTotal + amount.value;
      j := j + 1;
    }
    assert innerMatches[..j] == innerMatches;
    r := Some(innerTotal);
  }

  /** What one more element does to the second pass. */
  lemma GroupStep(m: map<string, real>, toks: seq<Token>, j: nat, total: real, multiplier: real)
    requires j < |toks| && AllWellFormed(toks) && NoGroups(toks) && CountsConvert(toks) && total != 0.0
    ensures AddGroup(m, toks[..j + 1], total, multiplier) == AddShare(AddGroup(m, toks[..j], total, multiplier), toks[j], total, multiplier)
  {
    var p := toks[..j + 1];
    assert p[..|p| - 1] == toks[..j];
    assert p[|p| - 1] == toks[j] && toks[j].Element?;
  }

  lemma ShareStep(m: map<string, real>, t: Token, total: real, multiplier: real, proportion: real)
    requires WellFormed(t) && t.Element? && t.count != "." && total != 0.0
    requires proportion == Amount(t.count) / total
    ensures m[t.symbol := Get(m, t.symbol) + proportion * multiplier] == AddShare(m, t, total, multiplier)
  {
    assert proportion * multiplier == Share(Amount(t.count), total, multiplier);
  }

  /** The second pass: each element of the group body adds its share. None when the body
      is non-empty and its total is 0. */
  method GroupPass(counts: map<string, real>, innerMatches: seq<Token>, innerTotal: real, innerMultiplier: real)
    returns (r: Option<map<string, real>>)
    requires AllWellFormed(innerMatches) && NoGroups(innerMatches) && CountsConvert(innerMatches)
    ensures r.None? <==> innerMatches != [] && innerTotal == 0.0
    ensures r.Some? ==> r.value == AddGroup(counts, innerMatches, innerTotal, innerMultiplier)
  {
    var acc := counts;
    var j := 0;
    while j < |innerMatches|
      invariant 0 <= j <= |innerMatches|
      invariant j > 0 ==> innerTotal != 0.0
      invariant acc == AddGroup(counts, innerMatches[..j], innerTotal, innerMultiplier)
    {
      var t := innerMatches[j];
      assert WellFormed(t) && t.Element? && t.count != ".";
      if innerTotal == 0.0 {
        return None;
      }
      var c := ConvertCount(t.count);
      var proportion := c.value / innerTotal;
      GroupStep(counts, innerMatches, j, innerTotal, innerMultiplier);
      ShareStep(acc, t, innerTotal, innerMultiplier, proportion);
      acc := acc[t.symbol := Get(acc, t.symbol) + proportion * innerMultiplier];
      j := j + 1;
    }
    assert innerMatches[..j] == innerMatches;
    r := Some(acc);
  }

  /** `sum(counts.values())`. */
  method SumValues(counts: map<string, real>) returns (total: real)
    ensures total == Sum(counts)
  {
    total := 0.0;
    var pending := counts.Keys;
    while pending != {}
      invariant pending <= counts.Keys
      invariant total + SumOver(counts, pending) == Sum(counts)
      decreases pending
    {
      var e :| e in pending;
      SumOverRemove(counts, pending, e);
      total := total + counts[e];
      pending := pending - {e};
    }
  }

  /** The last pass: every amount becomes its percentage of the total. */
  method Rescale(counts: map<string, real>) returns (r: Result<map<string, real>, ParseError>)
    ensures r == Normalize(counts)
  {
    var totalAmount := SumValues(counts);
    var acc := counts;
    var pending := counts.Keys;
    while pending != {}
      invariant pending <= counts.Keys
      invariant acc.Keys == counts.Keys
      invariant forall e :: e in pending ==> acc[e] == counts[e]
      invariant forall e :: e in counts && e !in pending ==> totalAmount != 0.0 && acc[e] == counts[e] / totalAmount * 100.0
      decreases pending
    {
      var e :| e in pending;
      if totalAmount == 0.0 {
        return Err(DivisionByZero);
      }
      acc := acc[e := acc[e] / totalAmount * 100.0];
      pending := pending - {e};
    }
    assert acc == map k | k in counts :: counts[k] / totalAmount * 100.0;
    r := Ok(acc);
  }

  /** The parser as the program runs it, pass by pass. */
  method ParseAlloyComposition(formula: string) returns (r: Result<map<string, real>, ParseError>)
    ensures r == CompositionOf(formula)
  {
    var s := RemoveSpaces(formula);
    var matches := Tokens(s);
    var outer := OuterPass(matches);
    if outer.None? {
      return Err(InvalidNumber);
    }
    var (counts, innerComposition, innerMultiplier) := outer.value;
    var innerMatches := ElementTokens(innerComposition);
    var innerTotal := InnerTotalPass(innerMatches);
    if innerTotal.None? {
      return Err(InvalidNumber);
    }
    var raw := GroupPass(counts, innerMatches, innerTotal.value, innerMultiplier);
    if raw.None? {
      return Err(DivisionByZero);
    }
    assert RawCounts(matches) == Ok(raw.value);
    r := Rescale(raw.value);
  }

  // ----- What the parser keeps -----

  /** The symbols of the element tokens among `toks`. */
  function Symbols(toks: seq<Token>): set<string>
    decreases |toks|
  {
    if toks == [] then {}
    else
      var t := toks[|toks| - 1];
      Symbols(toks[..|toks| - 1]) + (if t.Element? then {t.symbol} else {})
  }

  lemma {:induction false} SymbolsMembers(toks: seq<Token>, e: string)
    ensures e in Symbols(toks) <==> exists i :: 0 <= i < |toks| && toks[i].Element? && toks[i].symbol == e
    decreases |toks|
  {
    if toks != [] {
      var p := toks[..|toks| - 1];
      SymbolsMembers(p, e);
      if e in Symbols(p) {
        var i :| 0 <= i < |p| && p[i].Element? && p[i].symbol == e;
        assert toks[i] == p[i];
      }
      if exists i :: 0 <= i < |toks| && toks[i].Element? && toks[i].symbol == e {
        var i :| 0 <= i < |toks| && toks[i].Element? && toks[i].symbol == e;
        if i < |p| {
          assert p[i] == toks[i];
        }
      }
    }
  }

  /** The first pass gives an entry to exactly the element symbols outside the group. */
  lemma {:induction false} OuterCountsKeys(toks: seq<Token>)
    requires AllWellFormed(toks) && CountsConvert(toks)
    ensures OuterCounts(toks).Keys == Symbols(toks)
    ensures NonNegative(OuterCounts(toks))
    decreases |toks|
  {
    if toks != [] {
      OuterCountsKeys(toks[..|toks| - 1]);
    }
  }

  /** Outer tokens: the last count written for a symbol is the one kept; a missing count
      stands for 1. */
  lemma {:induction false} OuterCountsLastWins(toks: seq<Token>, i: nat)
    requires AllWellFormed(toks) && CountsConvert(toks)
    requires i < |toks| && toks[i].Element?
    requires forall j :: i < j < |toks| && toks[j].Element? ==> toks[j].symbol != toks[i].symbol
    ensures toks[i].symbol in OuterCounts(toks)
    ensures OuterCounts(toks)[toks[i].symbol] == if toks[i].count == "" then 1.0 else DecimalValue(toks[i].count)
    decreases |toks|
  {
    var p := toks[..|toks| - 1];
    if i < |p| {
      assert p[i] == toks[i];
      OuterCountsLastWins(p, i);
    }
  }

  /** Removing one token keeps the others well formed; removing a group keeps whether every
      count converts. */
  lemma WithoutOne(a: seq<Token>, g: Token, b: seq<Token>)
    ensures AllWellFormed(a + [g] + b) ==> AllWellFormed(a + b)
    ensures g.Group? ==> (CountsConvert(a + [g] + b) <==> CountsConvert(a + b))
  {
    var s := a + [g] + b;
    var u := a + b;
    forall i | 0 <= i < |u| ensures u[i] == s[if i < |a| then i else i + 1] {
    }
    if AllWellFormed(s) {
      forall i | 0 <= i < |u| ensures WellFormed(u[i]) {
        assert u[i] == s[if i < |a| then i else i + 1];
      }
    }
    if g.Group? && CountsConvert(s) {
      forall i | 0 <= i < |u| && u[i].Element? ensures u[i].count != "." {
        assert u[i] == s[if i < |a| then i else i + 1];
      }
    }
    if g.Group? && CountsConvert(u) {
      forall i | 0 <= i < |s| && s[i].Element? ensures s[i].count != "." {
        if i < |a| {
          assert s[i] == u[i];
        } else if i > |a| {
          assert s[i] == u[i - 1];
        }
      }
    }
  }

  /** A group among the outer tokens leaves the first pass's counts as they are. */
  lemma {:induction false} OuterCountsSkipGroup(a: seq<Token>, g: Token, b: seq<Token>)
    requires g.Group? && AllWellFormed(a + [g] + b) && CountsConvert(a + [g] + b)
    ensures AllWellFormed(a + b) && CountsConvert(a + b)
    ensures OuterCounts(a + [g] + b) == OuterCounts(a + b)
    decreases |b|
  {
    var s := a + [g] + b;
    var u := a + b;
    WithoutOne(a, g, b);
    if b == [] {
      assert s[..|s| - 1] == a && u == a;
    } else {
      var b' := b[..|b| - 1];
      assert s[..|s| - 1] == a + [g] + b';
      assert u[..|u| - 1] == a + b';
      assert s[|s| - 1] == u[|u| - 1] == b[|b| - 1];
      OuterCountsLast(s);
      OuterCountsLast(u);
      OuterCountsSkipGroup(a, g, b');
    }
  }

  /** The last match alone decides how the first pass ends: an element sets its count. */
  lemma OuterCountsLast(toks: seq<Token>)
    requires toks != [] && AllWellFormed(toks) && CountsConvert(toks)
    ensures AllWellFormed(toks[..|toks| - 1]) && CountsConvert(toks[..|toks| - 1])
    ensures OuterCounts(toks) ==
      var t := toks[|toks| - 1];
      if t.Element? then OuterCounts(toks[..|toks| - 1])[t.symbol := Amount(t.count)]
      else OuterCounts(toks[..|toks| - 1])
  {
  }

  /** The group kept is the last one: one written before another group is ignored. */
  lemma {:induction false} LastGroupSkipsEarlier(a: seq<Token>, g: Token, b: seq<Token>)
    requires exists j :: 0 <= j < |b| && b[j].Group?
    ensures LastGroup(a + [g] + b) == LastGroup(a + b)
    decreases |b|
  {
    var b' := b[..|b| - 1];
    assert (a + [g] + b)[..|a + [g] + b| - 1] == a + [g] + b';
    assert (a + b)[..|a + b| - 1] == a + b';
    if !b[|b| - 1].Group? {
      var j :| 0 <= j < |b| && b[j].Group?;
      assert b'[j] == b[j];
      LastGroupSkipsEarlier(a, g, b');
    }
  }

  /** A group is kept exactly when one is written, and the one kept is the last written:
      no group follows it. */
  lemma LastGroupIsLast(toks: seq<Token>)
    ensures LastGroup(toks).Some? <==> exists i :: 0 <= i < |toks| && toks[i].Group?
    ensures LastGroup(toks).Some? ==> exists i ::
      && 0 <= i < |toks| && toks[i] == LastGroup(toks).value
      && forall j :: i < j < |toks| ==> !toks[j].Group?
  {
    LastGroupPresent(toks);
    if LastGroup(toks).Some? {
      var i := LastGroupIndex(toks);
    }
  }

  lemma {:induction false} LastGroupPresent(toks: seq<Token>)
    ensures LastGroup(toks).Some? <==> exists i :: 0 <= i < |toks| && toks[i].Group?
    decreases |toks|
  {
    if toks != [] && !toks[|toks| - 1].Group? {
      var p := toks[..|toks| - 1];
      LastGroupPresent(p);
      if exists i :: 0 <= i < |toks| && toks[i].Group? {
        var i :| 0 <= i < |toks| && toks[i].Group?;
        assert p[i] == toks[i];
      }
      if exists i :: 0 <= i < |p| && p[i].Group? {
        var i :| 0 <= i < |p| && p[i].Group?;
        assert toks[i] == p[i];
      }
    }
  }

  /** Where the kept group stands: no group is written after it. */
  lemma {:induction false} LastGroupIndex(toks: seq<Token>) returns (i: int)
    requires LastGroup(toks).Some?
    ensures 0 <= i < |toks| && toks[i] == LastGroup(toks).value
    ensures forall j :: i < j < |toks| ==> !toks[j].Group?
    decreases |toks|
  {
    var n := |toks| - 1;
    if toks[n].Group? {
      i := n;
    } else {
      var p := toks[..n];
      i := LastGroupIndex(p);
      assert toks[i] == p[i];
      forall j | i < j < |toks| ensures !toks[j].Group? {
        if j < n {
          assert toks[j] == p[j];
        }
      }
    }
  }

  /** Only the last group counts: removing an earlier one changes nothing. */
  lemma EarlierGroupIgnored(a: seq<Token>, g: Token, b: seq<Token>)
    requires g.Group? && AllWellFormed(a + [g] + b)
    requires exists j :: 0 <= j < |b| && b[j].Group?
    ensures AllWellFormed(a + b)
    ensures FromTokens(a + [g] + b) == FromTokens(a + b)
  {
    var s := a + [g] + b;
    WithoutOne(a, g, b);
    LastGroupSkipsEarlier(a, g, b);
    if CountsConvert(s) {
      OuterCountsSkipGroup(a, g, b);
    }
  }

  // ----- Amounts before rescaling -----

  /** The body's total is never negative, and it is 0 exactly when every amount in it is. */
  lemma {:induction false} InnerTotalZero(toks: seq<Token>)
    requires AllWellFormed(toks) && CountsConvert(toks)
    ensures 0.0 <= InnerTotal(toks)
    ensures InnerTotal(toks) == 0.0 <==>
      forall i :: 0 <= i < |toks| && toks[i].Element? ==> Amount(toks[i].count) == 0.0
    decreases |toks|
  {
    if toks != [] {
      var p := toks[..|toks| - 1];
      InnerTotalZero(p);
      assert forall i :: 0 <= i < |p| ==> p[i] == toks[i];
    }
  }

  /** Changing one entry changes the sum by the difference. */
  lemma SumUpdate(m: map<string, real>, k: string, v: real)
    ensures Sum(m[k := v]) == Sum(m) - Get(m, k) + v
  {
    var m' := m[k := v];
    SumOverRemove(m', m'.Keys, k);
    assert m'.Keys - {k} == m.Keys - {k};
    SumOverAgree(m, m', m.Keys - {k});
    if k in m {
      SumOverRemove(m, m.Keys, k);
    } else {
      assert m.Keys - {k} == m.Keys;
    }
  }

  lemma ShareAdd(s: real, a: real, total: real, multiplier: real)
    requires total != 0.0
    ensures Share(s + a, total, multiplier) == Share(s, total, multiplier) + Share(a, total, multiplier)
  {
    assert (s + a) / total == s / total + a / total;
  }

  /** The second pass touches only the body's symbols, and adds to the total exactly the
      body's total, as a share of itself, times the multiplier. */
  lemma AddGroupFacts(m: map<string, real>, toks: seq<Token>, total: real, multiplier: real)
    requires AllWellFormed(toks) && CountsConvert(toks) && (toks != [] ==> total != 0.0)
    ensures AddGroup(m, toks, total, multiplier).Keys == m.Keys + Symbols(toks)
    ensures forall e :: e in m && e !in Symbols(toks) ==> AddGroup(m, toks, total, multiplier)[e] == m[e]
    ensures toks != [] ==> Sum(AddGroup(m, toks, total, multiplier)) == Sum(m) + Share(InnerTotal(toks), total, multiplier)
    ensures NonNegative(m) && 0.0 < total && 0.0 <= multiplier ==> NonNegative(AddGroup(m, toks, total, multiplier))
  {
    AddGroupKeys(m, toks, total, multiplier);
    if toks != [] {
      AddGroupSum(m, toks, total, multiplier);
    }
    if NonNegative(m) && 0.0 < total && 0.0 <= multiplier {
      AddGroupNonNegative(m, toks, total, multiplier);
    }
  }

  /** The sum of the amounts of the element tokens among `toks` whose symbol is `e`. */
  function SymbolAmount(toks: seq<Token>, e: string): real
    requires AllWellFormed(toks) && CountsConvert(toks)
    decreases |toks|
  {
    if toks == [] then 0.0
    else
      var t := toks[|toks| - 1];
      SymbolAmount(toks[..|toks| - 1], e) + (if t.Element? && t.symbol == e then Amount(t.count) else 0.0)
  }

  /** The second pass accumulates: a symbol ends with what it had before plus the share of
      all its amounts in the body, however many times it is written there. */
  lemma {:induction false} AddGroupAt(m: map<string, real>, toks: seq<Token>, total: real, multiplier: real, e: string)
    requires AllWellFormed(toks) && CountsConvert(toks) && toks != [] && total != 0.0
    ensures Get(AddGroup(m, toks, total, multiplier), e) == Get(m, e) + Share(SymbolAmount(toks, e), total, multiplier)
    decreases |toks|
  {
    var p := toks[..|toks| - 1];
    var t := toks[|toks| - 1];
    var acc := AddGroup(m, p, total, multiplier);
    var before := SymbolAmount(p, e);
    if p != [] {
      AddGroupAt(m, p, total, multiplier, e);
    } else {
      assert acc == m && before == 0.0;
      ShareOfZero(total, multiplier);
    }
    if t.Element? && t.symbol == e {
      var a := Amount(t.count);
      assert AddGroup(m, toks, total, multiplier) == AddShare(acc, t, total, multiplier);
      ShareAdd(before, a, total, multiplier);
      assert SymbolAmount(toks, e) == before + a;
    } else {
      assert Get(AddGroup(m, toks, total, multiplier), e) == Get(acc, e);
      assert SymbolAmount(toks, e) == before;
    }
  }

  lemma {:induction false} AddGroupKeys(m: map<string, real>, toks: seq<Token>, total: real, multiplier: real)
    requires AllWellFormed(toks) && CountsConvert(toks) && (toks != [] ==> total != 0.0)
    ensures AddGroup(m, toks, total, multiplier).Keys == m.Keys + Symbols(toks)
    ensures forall e :: e in m && e !in Symbols(toks) ==> AddGroup(m, toks, total, multiplier)[e] == m[e]
    decreases |toks|
  {
    if toks != [] {
      AddGroupKeys(m, toks[..|toks| - 1], total, multiplier);
    }
  }

  lemma {:induction false} AddGroupSum(m: map<string, real>, toks: seq<Token>, total: real, multiplier: real)
    requires AllWellFormed(toks) && CountsConvert(toks) && toks != [] && total != 0.0
    ensures Sum(AddGroup(m, toks, total, multiplier)) == Sum(m) + Share(InnerTotal(toks), total, multiplier)
    decreases |toks|
  {
    var p := toks[..|toks| - 1];
    var t := toks[|toks| - 1];
    var acc := AddGroup(m, p, total, multiplier);
    var before := InnerTotal(p);
    if p != [] {
      AddGroupSum(m, p, total, multiplier);
    } else {
      assert acc == m && before == 0.0;
      ShareOfZero(total, multiplier);
    }
    if t.Element? {
      var a := Amount(t.count);
      assert AddGroup(m, toks, total, multiplier) == AddShare(acc, t, total, multiplier);
      AddShareSum(acc, t, total, multiplier);
      ShareAdd(before, a, total, multiplier);
      assert InnerTotal(toks) == before + a;
    } else {
      assert AddGroup(m, toks, total, multiplier) == acc;
      assert InnerTotal(toks) == before;
    }
  }

  /** One element's share adds exactly that share to the total. */
  lemma AddShareSum(m: map<string, real>, t: Token, total: real, multiplier: real)
    requires WellFormed(t) && t.Element? && t.count != "." && total != 0.0
    ensures Sum(AddShare(m, t, total, multiplier)) == Sum(m) + Share(Amount(t.count), total, multiplier)
  {
    var share := Share(Amount(t.count), total, multiplier);
    var before := Get(m, t.symbol);
    SumUpdate(m, t.symbol, before + share);
  }

  lemma ShareOfZero(total: real, multiplier: real)
    requires total != 0.0
    ensures Share(0.0, total, multiplier) == 0.0
  {
    assert 0.0 / total == 0.0;
  }

  lemma {:induction false} AddGroupNonNegative(m: map<string, real>, toks: seq<Token>, total: real, multiplier: real)
    requires AllWellFormed(toks) && CountsConvert(toks)
    requires NonNegative(m) && 0.0 < total && 0.0 <= multiplier
    ensures NonNegative(AddGroup(m, toks, total, multiplier))
    decreases |toks|
  {
    if toks != [] {
      var t := toks[|toks| - 1];
      AddGroupNonNegative(m, toks[..|toks| - 1], total, multiplier);
      if t.Element? {
        ShareNonNegative(Amount(t.count), total, multiplier);
      }
    }
  }

  lemma ShareNonNegative(amount: real, total: real, multiplier: real)
    requires 0.0 <= amount && 0.0 < total && 0.0 <= multiplier
    ensures 0.0 <= Share(amount, total, multiplier)
  {
    assert 0.0 <= amount / total;
  }

  /** The amounts before rescaling: one entry per symbol, outside or inside the kept group,
      none negative. */
  lemma RawCountsFacts(toks: seq<Token>)
    requires AllWellFormed(toks)
    ensures RawCounts(toks).Ok? ==>
      RawCounts(toks).value.Keys == Symbols(toks) + Symbols(ElementTokens(GroupBody(LastGroup(toks)))) &&
      NonNegative(RawCounts(toks).value)
  {
    if RawCounts(toks).Ok? {
      var g := LastGroup(toks);
      var inner := ElementTokens(GroupBody(g));
      OuterCountsKeys(toks);
      InnerTotalZero(inner);
      AddGroupFacts(OuterCounts(toks), inner, InnerTotal(inner), GroupMultiplier(g));
    }
  }

  /** Before rescaling, a symbol has its outer amount (the last one written outside the group,
      0 when none) plus its share of the kept group, summed over every place it is written in
      the body. */
  lemma RawCountsAt(toks: seq<Token>, e: string)
    requires AllWellFormed(toks) && RawCounts(toks).Ok?
    ensures CountsConvert(toks)
    ensures var g := LastGroup(toks);
      var inner := ElementTokens(GroupBody(g));
      && CountsConvert(inner)
      && Get(RawCounts(toks).value, e) == Get(OuterCounts(toks), e) +
        (if inner == [] then 0.0 else Share(SymbolAmount(inner, e), InnerTotal(inner), GroupMultiplier(g)))
  {
    var g := LastGroup(toks);
    var inner := ElementTokens(GroupBody(g));
    if inner != [] {
      AddGroupAt(OuterCounts(toks), inner, InnerTotal(inner), GroupMultiplier(g), e);
    }
  }

  // ----- Rescaling to percentages -----

  /** Rescaling keeps the keys, and fails exactly when there are amounts and all are 0. */
  lemma NormalizeKeys(raw: map<string, real>)
    requires NonNegative(raw)
    ensures Normalize(raw).Err? <==> raw != map[] && forall k :: k in raw ==> raw[k] == 0.0
    ensures Normalize(raw).Err? ==> Normalize(raw).error == DivisionByZero
    ensures Normalize(raw).Ok? ==> Normalize(raw).value.Keys == raw.Keys
  {
    SumOverBounds(raw, raw.Keys);
  }

  /** Each percentage lies between 0 and 100. */
  lemma NormalizeBounds(raw: map<string, real>)
    requires NonNegative(raw) && Normalize(raw).Ok?
    ensures forall k :: k in raw ==> 0.0 <= Normalize(raw).value[k] <= 100.0
  {
    SumOverBounds(raw, raw.Keys);
    var total := Sum(raw);
    forall k | k in raw ensures 0.0 <= Normalize(raw).value[k] <= 100.0 {
      assert 0.0 < total;
      PercentBound(raw[k], total);
    }
  }

  lemma PercentBound(a: real, total: real)
    requires 0.0 <= a <= total && 0.0 < total
    ensures 0.0 <= a / total * 100.0 <= 100.0
  {
    assert a / total <= 1.0;
  }

  /** The percentages add up to 100. */
  lemma NormalizeSum(raw: map<string, real>)
    requires NonNegative(raw) && raw != map[] && Normalize(raw).Ok?
    ensures Sum(Normalize(raw).value) == 100.0
  {
    var n := Normalize(raw).value;
    var total := Sum(raw);
    var c := 100.0 / total;
    assert total != 0.0;
    forall k | k in raw ensures n[k] == raw[k] * c {
      PercentAsFactor(raw[k], total);
    }
    assert n.Keys == raw.Keys;
    SumOverScaled(raw, n, raw.Keys, c);
    PercentAsFactor(total, total);
  }

  /** A share of `total`, as a percentage, is the amount times the factor 100 / total. */
  lemma PercentAsFactor(x: real, total: real)
    requires total != 0.0
    ensures x / total * 100.0 == x * (100.0 / total)
  {
  }

  /** Multiplying every amount by the same positive factor does not change the result. */
  lemma NormalizeScaled(raw: map<string, real>, scaled: map<string, real>, c: real)
    requires 0.0 < c && scaled.Keys == raw.Keys
    requires forall k :: k in raw ==> scaled[k] == raw[k] * c
    ensures Normalize(scaled) == Normalize(raw)
  {
    SumOverScaled(raw, scaled, raw.Keys, c);
    var total := Sum(raw);
    var st := Sum(scaled);
    assert st == total * c;
    if total != 0.0 {
      var a := map k | k in scaled :: scaled[k] / st * 100.0;
      var b := map k | k in raw :: raw[k] / total * 100.0;
      forall k | k in raw ensures a[k] == b[k] {
        PercentOfScaled(scaled[k], raw[k], st, total, c);
      }
      assert a == b;
    } else if raw == map[] {
      assert scaled == map[];
    } else {
      assert st == 0.0 && scaled != map[];
    }
  }

  /** An amount scaled by c, as a percentage of a total scaled by c, is the unscaled percentage. */
  lemma PercentOfScaled(s: real, x: real, st: real, total: real, c: real)
    requires total != 0.0 && c != 0.0 && s == x * c && st == total * c
    ensures s / st * 100.0 == x / total * 100.0
  {
    CancelFactor(x, total, c);
  }

  lemma CancelFactor(a: real, total: real, c: real)
    requires total != 0.0 && c != 0.0
    ensures a * c / (total * c) == a / total
  {
  }

  /** Rescaling a result again changes nothing. */
  lemma NormalizeIdempotent(raw: map<string, real>)
    requires NonNegative(raw) && Normalize(raw).Ok?
    ensures Normalize(Normalize(raw).value) == Normalize(raw)
  {
    var n := Normalize(raw).value;
    if raw != map[] {
      NormalizeSum(raw);
      assert n != map[];
      var n' := map k | k in n :: n[k] / Sum(n) * 100.0;
      assert n' == n;
    } else {
      assert n == map[];
    }
  }

  // ----- The whole parser -----

  /** A successful parse gives one entry per symbol written (outside the kept group or in
      it), each a percentage between 0 and 100, together 100. */
  lemma FromTokensShares(toks: seq<Token>)
    requires AllWellFormed(toks)
    ensures FromTokens(toks).Ok? ==>
      var r := FromTokens(toks).value;
      r.Keys == Symbols(toks) + Symbols(ElementTokens(GroupBody(LastGroup(toks)))) &&
      (forall e :: e in r ==> 0.0 <= r[e] <= 100.0) &&
      (r != map[] ==> Sum(r) == 100.0)
  {
    RawCountsFacts(toks);
    if RawCounts(toks).Ok? {
      var raw := RawCounts(toks).value;
      NormalizeKeys(raw);
      if Normalize(raw).Ok? {
        NormalizeBounds(raw);
        if raw != map[] {
          NormalizeSum(raw);
        }
      }
    }
  }

  /** The errors: a lone "." as a count is invalid; a zero total, of the kept group's body
      or of everything, is a division by zero. */
  lemma FromTokensErrors(toks: seq<Token>)
    requires AllWellFormed(toks)
    ensures FromTokens(toks) == Err(InvalidNumber) <==>
      !CountsConvert(toks) || !CountsConvert(ElementTokens(GroupBody(LastGroup(toks))))
    ensures RawCounts(toks).Ok? ==>
      (FromTokens(toks) == Err(DivisionByZero) <==>
        RawCounts(toks).value != map[] && forall e :: e in RawCounts(toks).value ==> RawCounts(toks).value[e] == 0.0)
    ensures FromTokens(toks).Err? ==> RawCounts(toks).Err? || FromTokens(toks) == Err(DivisionByZero)
    ensures var inner := ElementTokens(GroupBody(LastGroup(toks)));
      CountsConvert(toks) && CountsConvert(inner) ==>
        (RawCounts(toks) == Err(DivisionByZero) <==>
          inner != [] && forall i :: 0 <= i < |inner| ==> Amount(inner[i].count) == 0.0)
  {
    var inner := ElementTokens(GroupBody(LastGroup(toks)));
    if CountsConvert(toks) && CountsConvert(inner) {
      InnerTotalZero(inner);
    }
    RawCountsFacts(toks);
    if RawCounts(toks).Ok? {
      NormalizeKeys(RawCounts(toks).value);
    }
  }

  /** Parsing a formula written out from well-formed tokens reads those tokens back. */
  lemma CompositionOfRender(ts: seq<Token>)
    requires AllWellFormed(ts)
    ensures CompositionOf(Render(ts)) == FromTokens(ts)
  {
    RenderNoSpace(ts);
    ScanRender(ts, true);
  }

  /** A formula with no upper-case letter names no element: the result is empty. */
  lemma NoUpperGivesEmpty(formula: string)
    requires NoUpper(formula)
    ensures CompositionOf(formula) == Ok(map[])
  {
    var s := RemoveSpaces(formula);
    assert NoUpper(s) by {
      forall k | 0 <= k < |s| ensures !IsUpper(s[k]) {
        assert s[k] in multiset(s);
        assert s[k] in multiset(formula);
      }
    }
    var toks := Tokens(s);
    ScanNoUpper(s, true);
    assert CountsConvert(toks);
    var g := LastGroup(toks);
    var body := GroupBody(g);
    assert NoUpper(body) by {
      if g.Some? {
        var i :| 0 <= i < |toks| && toks[i] == g.value;
      }
    }
    var inner := ElementTokens(body);
    ScanNoUpper(body, false);
    OuterCountsKeys(toks);
    forall e ensures e !in Symbols(toks) {
      SymbolsMembers(toks, e);
    }
    assert OuterCounts(toks) == map[];
    assert RawCounts(toks) == Ok(map[]);
  }
}
