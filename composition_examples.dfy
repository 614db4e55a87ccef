/** Worked formulas: what the parser makes of a few inputs. */
module CompositionExamples {
  import opened Wrappers
  import opened Text
  import opened Numerals
  import opened Formula
  import opened Sums
  import opened Composition

  lemma SumSingle(k: string, v: real)
    ensures Sum(map[k := v]) == v
  {
    var m := map[k := v];
    SumOverRemove(m, m.Keys, k);
    assert m.Keys - {k} == {};
  }

  /** Count text of digits alone stands for the number they spell. */
  lemma DigitsAmount(s: string)
    requires AllDigits(s) && s != ""
    ensures IsDecimalText(s) && s != "." && Amount(s) == NatValue(s) as real
  {
    DecimalValueOfDigits(s);
    assert IsDigit(s[0]);
  }

  lemma ThroughRaw(ts: seq<Token>, raw: map<string, real>)
    requires AllWellFormed(ts) && RawCounts(ts) == Ok(raw)
    ensures FromTokens(ts) == Normalize(raw)
  {
  }

  lemma AmountZero()
    ensures IsDecimalText("0") && "0" != "." && Amount("0") == 0.0
  {
    DigitsAmount("0");
  }

  lemma AmountTwo()
    ensures IsDecimalText("2") && "2" != "." && Amount("2") == 2.0
  {
    DigitsAmount("2");
  }

  lemma AmountFifty()
    ensures IsDecimalText("50") && "50" != "." && Amount("50") == 50.0
  {
    var s := "50";
    DigitsAmount(s);
    assert s[..1] == "5";
  }

  /** The tokens of "Fe0". */
  const ZeroTokens: seq<Token> := [Element("Fe", "0")]

  lemma ZeroAmountRaw()
    ensures AllWellFormed(ZeroTokens) && RawCounts(ZeroTokens) == Ok(map["Fe" := 0.0])
  {
    var ts := ZeroTokens;
    AmountZero();
    assert WellFormed(ts[0]);
    assert ts[..0] == [];
    assert OuterCounts(ts) == map["Fe" := 0.0];
  }

  lemma ZeroAmountPercent()
    ensures Normalize(map["Fe" := 0.0]) == Err(DivisionByZero)
  {
    SumSingle("Fe", 0.0);
    assert "Fe" in map["Fe" := 0.0];
  }

  /** "Fe0": the only amount is 0, so the rescaling divides by zero. */
  lemma ZeroAmount()
    ensures CompositionOf("Fe0") == Err(DivisionByZero)
  {
    var ts := ZeroTokens;
    ZeroAmountRaw();
    assert Render(ts) == "Fe0";
    CompositionOfRender(ts);
    ZeroAmountPercent();
    ThroughRaw(ts, map["Fe" := 0.0]);
  }

  /** The tokens of "Fe.". */
  const DotTokens: seq<Token> := [Element("Fe", ".")]

  /** "Fe.": float() refuses the count ".". */
  lemma LoneDot()
    ensures CompositionOf("Fe.") == Err(InvalidNumber)
  {
    LoneDotTokens();
    CompositionOfRender(DotTokens);
  }

  lemma LoneDotTokens()
    ensures AllWellFormed(DotTokens) && Render(DotTokens) == "Fe." && !CountsConvert(DotTokens)
  {
    var ts := DotTokens;
    assert DotIndex(".") == 0;
    assert WellFormed(ts[0]);
    assert ts[1..] == [];
  }

  /** The tokens of "Fe50Ni50". */
  const PairTokens: seq<Token> := [Element("Fe", "50"), Element("Ni", "50")]

  lemma EvenPairRaw()
    ensures AllWellFormed(PairTokens) && RawCounts(PairTokens) == Ok(map["Fe" := 50.0, "Ni" := 50.0])
  {
    var ts := PairTokens;
    AmountFifty();
    assert WellFormed(ts[0]) && WellFormed(ts[1]);
    assert ts[..1] == [ts[0]] && ts[..1][..0] == [];
    assert OuterCounts(ts[..1]) == map["Fe" := 50.0];
    assert OuterCounts(ts) == map["Fe" := 50.0, "Ni" := 50.0];
    assert LastGroup(ts) == None;
  }

  lemma EvenPairRender()
    ensures Render(PairTokens) == "Fe50Ni50"
  {
    var ts := PairTokens;
    assert ts[1..] == [ts[1]] && ts[1..][1..] == [];
    assert TokenText(ts[0]) == "Fe50";
    assert Render(ts[1..]) == "Ni50";
  }

  lemma EvenPairPercent()
    ensures Normalize(map["Fe" := 50.0, "Ni" := 50.0]) == Ok(map["Fe" := 50.0, "Ni" := 50.0])
  {
    var raw := map["Fe" := 50.0, "Ni" := 50.0];
    SumSingle("Fe", 50.0);
    SumUpdate(map["Fe" := 50.0], "Ni", 50.0);
    assert Sum(raw) == 100.0;
    var pct := map k | k in raw :: raw[k] / 100.0 * 100.0;
    assert pct == raw;
    assert "Fe" in raw;
  }

  /** "Fe50Ni50": two equal amounts, half each. */
  lemma EvenPair()
    ensures CompositionOf("Fe50Ni50") == Ok(map["Fe" := 50.0, "Ni" := 50.0])
  {
    EvenPairRaw();
    EvenPairRender();
    CompositionOfRender(PairTokens);
    EvenPairPercent();
    ThroughRaw(PairTokens, map["Fe" := 50.0, "Ni" := 50.0]);
  }

  /** The tokens of "(FeNi)2Cr2", and of the group's body "FeNi". */
  const GroupTokens: seq<Token> := [Group("FeNi", "2"), Element("Cr", "2")]
  const InnerTokens: seq<Token> := [Element("Fe", ""), Element("Ni", "")]

  lemma GroupShareBody()
    ensures AllWellFormed(InnerTokens) && CountsConvert(InnerTokens) && ElementTokens("FeNi") == InnerTokens
  {
    GroupBodyRender();
    ScanRender(InnerTokens, false);
  }

  lemma GroupBodyRender()
    ensures AllWellFormed(InnerTokens) && CountsConvert(InnerTokens) && Render(InnerTokens) == "FeNi"
  {
    var inner := InnerTokens;
    assert WellFormed(inner[0]) && WellFormed(inner[1]);
    assert inner[1..] == [inner[1]] && inner[1..][1..] == [];
    assert Render(inner[1..][1..]) == "";
    assert Render(inner[1..]) == "Ni";
  }

  lemma GroupShareTotal()
    requires AllWellFormed(InnerTokens) && CountsConvert(InnerTokens)
    ensures InnerTotal(InnerTokens) == 2.0
  {
    var inner := InnerTokens;
    assert inner[..1] == [inner[0]] && inner[..1][..0] == [];
    assert InnerTotal(inner[..1]) == 1.0;
  }

  lemma GroupShareAdd()
    requires AllWellFormed(InnerTokens) && CountsConvert(InnerTokens)
    ensures AddGroup(map["Cr" := 2.0], InnerTokens, 2.0, 2.0) == map["Cr" := 2.0, "Fe" := 1.0, "Ni" := 1.0]
  {
    var inner := InnerTokens;
    assert inner[..1] == [inner[0]] && inner[..1][..0] == [];
    assert Share(1.0, 2.0, 2.0) == 1.0;
    assert AddGroup(map["Cr" := 2.0], inner[..1], 2.0, 2.0) == map["Cr" := 2.0, "Fe" := 1.0];
  }

  lemma GroupShareOuter()
    ensures AllWellFormed(GroupTokens) && CountsConvert(GroupTokens)
    ensures LastGroup(GroupTokens) == Some(GroupTokens[0])
    ensures GroupMultiplier(LastGroup(GroupTokens)) == 2.0
    ensures OuterCounts(GroupTokens) == map["Cr" := 2.0]
  {
    var ts := GroupTokens;
    AmountTwo();
    DigitsAmount(ts[0].multiplier);
    assert WellFormed(ts[0]) && WellFormed(ts[1]);
    assert ts[..1] == [ts[0]] && ts[..1][..0] == [];
    assert OuterCounts(ts[..1]) == map[];
    assert OuterCounts(ts) == map[]["Cr" := Amount(ts[1].count)];
    assert map[]["Cr" := 2.0] == map["Cr" := 2.0];
  }

  lemma GroupShareRaw()
    ensures AllWellFormed(GroupTokens)
    ensures RawCounts(GroupTokens) == Ok(map["Cr" := 2.0, "Fe" := 1.0, "Ni" := 1.0])
  {
    GroupShareOuter();
    assert GroupBody(LastGroup(GroupTokens)) == "FeNi";
    GroupShareBody();
    GroupShareTotal();
    GroupShareAdd();
  }

  lemma GroupShareRender()
    ensures Render(GroupTokens) == "(FeNi)2Cr2"
  {
    var ts := GroupTokens;
    assert ts[1..] == [ts[1]] && ts[1..][1..] == [];
    assert TokenText(ts[0]) == "(FeNi)2";
    assert Render(ts[1..]) == "Cr2";
  }

  lemma GroupSharePercent()
    ensures Normalize(map["Cr" := 2.0, "Fe" := 1.0, "Ni" := 1.0]) ==
      Ok(map["Cr" := 50.0, "Fe" := 25.0, "Ni" := 25.0])
  {
    var raw := map["Cr" := 2.0, "Fe" := 1.0, "Ni" := 1.0];
    SumSingle("Cr", 2.0);
    SumUpdate(map["Cr" := 2.0], "Fe", 1.0);
    SumUpdate(map["Cr" := 2.0, "Fe" := 1.0], "Ni", 1.0);
    assert Sum(raw) == 4.0;
    var pct := map k | k in raw :: raw[k] / 4.0 * 100.0;
    var target := map["Cr" := 50.0, "Fe" := 25.0, "Ni" := 25.0];
    assert pct.Keys == target.Keys;
    forall k | k in pct ensures pct[k] == target[k] {
      assert k == "Cr" || k == "Fe" || k == "Ni";
    }
    assert pct == target;
    assert "Cr" in raw;
  }

  /** "(FeNi)2Cr2": the group's two units are split evenly between its elements, so Cr
      has half and Fe and Ni a quarter each. */
  lemma GroupShare()
    ensures CompositionOf("(FeNi)2Cr2") == Ok(map["Cr" := 50.0, "Fe" := 25.0, "Ni" := 25.0])
  {
    GroupShareRaw();
    GroupShareRender();
    CompositionOfRender(GroupTokens);
    GroupSharePercent();
    ThroughRaw(GroupTokens, map["Cr" := 2.0, "Fe" := 1.0, "Ni" := 1.0]);
  }
}
