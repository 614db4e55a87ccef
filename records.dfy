/** The other fields of a submitted record: numeric properties, phases, and the free-text
    "Eutectic" and "Doi" fields. */
module Records {
  import opened Wrappers
  import opened Text
  import opened Numerals
  import opened PyFloat

  /** The message returned for a property entry float() refuses. */
  const InvalidNumberMessage := "Error: Please enter a valid number."

  /** What a property entry yields: nothing (a blank entry), a number, or the message. */
  datatype PropertyValue = Blank | Number(value: Float) | Invalid(message: string)

  /** `process_property_input`: blank text is no value; otherwise float() of the text, or
      the error message where float() raises. */
  function ProcessPropertyInput(text: string): (r: PropertyValue)
    ensures r.Blank? <==> IsBlank(text)
    ensures r.Number? <==> !IsBlank(text) && ParseFloat(text).Some?
    ensures r.Number? ==> ParseFloat(text) == Some(r.value)
    ensures r.Invalid? ==> r.message == InvalidNumberMessage
  {
    if Strip(text) == "" then Blank
    else if ParseFloat(text).Some? then Number(ParseFloat(text).value)
    else Invalid(InvalidNumberMessage)
  }

  /** A natural number written in decimal reads back as itself. */
  lemma PropertyInputOfNumber(n: nat)
    ensures ProcessPropertyInput(NatToString(n)) == Number(Finite(n as real))
  {
    NatToStringNotBlank(n);
    ParseFloatOfNatToString(n);
    PropertyInputOfFloat(NatToString(n), Finite(n as real));
  }

  lemma NatToStringNotBlank(n: nat)
    ensures !IsBlank(NatToString(n))
  {
    var s := NatToString(n);
    DecimalTextOfDigits(s);
    assert !IsSpace(s[0]);
  }

  /** Text that is not blank and that `float()` accepts is stored as that number. */
  lemma PropertyInputOfFloat(text: string, v: Float)
    requires !IsBlank(text) && ParseFloat(text) == Some(v)
    ensures ProcessPropertyInput(text) == Number(v)
  {
  }

  /** Text that is not blank and that `float()` refuses gets the message. */
  lemma PropertyInputOfRefused(text: string)
    requires !IsBlank(text) && ParseFloat(text) == None
    ensures ProcessPropertyInput(text) == Invalid(InvalidNumberMessage)
  {
  }

  /** Text made only of a "." is refused with the message. */
  lemma PropertyInputOfDot()
    ensures ProcessPropertyInput(".") == Invalid(InvalidNumberMessage)
  {
    FloatRefusesDot();
    assert !IsSpace("."[0]);
    PropertyInputOfRefused(".");
  }

  lemma FloatRefusesDot()
    ensures ParseFloat(".") == None
  {
    DecimalTextOfDot();
    ParseFloatOfDecimalText(".");
  }

  /** `strip()` removes a trailing U+001F, so "5\U{1F}" is not blank, but `float()` keeps it and
      refuses the text: the entry gets the message. */
  lemma PropertyInputOfSeparator()
    ensures Strip("5\U{1F}") == "5"
    ensures ProcessPropertyInput("5\U{1F}") == Invalid(InvalidNumberMessage)
  {
    StripSeparator();
    FloatRefusesSeparator();
  }

  lemma StripSeparator()
    ensures Strip("5\U{1F}") == "5"
  {
    var text := "5\U{1F}";
    assert !IsSpace('5') && IsSpace('\U{1F}');
    assert TrimStart(text, IsSpace) == text;
    assert text[..|text| - 1] == "5";
    assert TrimEnd("5", IsSpace) == "5";
    assert TrimEnd(text, IsSpace) == "5";
  }

  lemma FloatRefusesSeparator()
    ensures ParseFloat("5\U{1F}") == None
  {
    ParseFloatOfUnpadded("5\U{1F}");
    assert |AsciiLower("5\U{1F}")| == 2;
    LiteralRefusesSeparator();
  }

  lemma LiteralRefusesSeparator()
    ensures DecimalLiteral("5\U{1F}") == None
  {
    var text := "5\U{1F}";
    assert text[1..] == "\U{1F}";
    assert DigitPartRest(text[1..]) == 0;
    assert DigitPartLength(text) == 1;
    assert text[..1] == "5";
    assert ExponentValue("\U{1F}") == None;
  }

  lemma DecimalTextOfDot()
    ensures IsDecimalText(".")
  {
    assert DotIndex(".") == 0;
  }

  /** The phase columns, in the order the program lists them ("\U{03C3}" is sigma). */
  const Phases: seq<string> := ["FCC", "BCC", "L12", "B2", "L21", "Laves", "\U{03C3}", "Im"]

  lemma PhasesDistinct()
    ensures |Phases| == 8
    ensures forall i, j :: 0 <= i < j < |Phases| ==> Phases[i] != Phases[j]
  {
  }

  /** What a phase column holds for a selection: 1 or 0 when some phase is marked "Yes",
      nothing otherwise. */
  function PhaseFlag(selections: map<string, string>, phase: string): Option<nat> {
    if "Yes" in selections.Values then
      Some(if phase in selections && selections[phase] == "Yes" then 1 else 0)
    else None
  }

  /** `process_phase_properties`: one entry for each of the eight phases. */
  method ProcessPhaseProperties(selections: map<string, string>) returns (props: map<string, Option<nat>>)
    ensures props.Keys == set p | p in Phases
    ensures forall p :: p in props ==> props[p] == PhaseFlag(selections, p)
  {
    var anyYes := "Yes" in selections.Values;
    props := map[];
    for i := 0 to |Phases|
      invariant props.Keys == set p | p in Phases[..i]
      invariant forall p :: p in props ==> props[p] == PhaseFlag(selections, p)
    {
      var phase := Phases[i];
      assert Phases[..i + 1] == Phases[..i] + [phase];
      if anyYes {
        props := props[phase := Some(if phase in selections && selections[phase] == "Yes" then 1 else 0)];
      } else {
        props := props[phase := None];
      }
    }
    assert Phases[..|Phases|] == Phases;
  }

  /** The phase entries: exactly eight; all empty unless some selection is "Yes", and then
      1 exactly for the phases selected "Yes" and 0 for the others. */
  lemma PhaseFlags(selections: map<string, string>)
    ensures |set p | p in Phases| == 8
    ensures !("Yes" in selections.Values) ==> forall p :: p in Phases ==> PhaseFlag(selections, p) == None
    ensures "Yes" in selections.Values ==> forall p :: p in Phases ==>
      PhaseFlag(selections, p).Some? &&
      (PhaseFlag(selections, p) == Some(1) <==> p in selections && selections[p] == "Yes")
    ensures "Yes" in selections.Values ==> forall p :: p in Phases ==>
      PhaseFlag(selections, p) == Some(1) || PhaseFlag(selections, p) == Some(0)
    ensures "Yes" in selections.Values ==> exists p :: p in selections && selections[p] == "Yes"
  {
    PhaseCount();
    if "Yes" in selections.Values {
      var p :| p in selections && selections[p] == "Yes";
    }
  }

  /** The eight phase names are distinct. */
  lemma PhaseCount()
    ensures |set p | p in Phases| == 8
  {
    PhasesDistinct();
    DistinctCount(Phases);
  }

  /** A sequence without repeats has as many distinct members as positions. */
  lemma {:induction false} DistinctCount(s: seq<string>)
    requires forall i, j :: 0 <= i < j < |s| ==> s[i] != s[j]
    ensures |set p | p in s| == |s|
    decreases |s|
  {
    if s != [] {
      var t := s[1..];
      assert forall i, j :: 0 <= i < j < |t| ==> t[i] == s[i + 1] && t[j] == s[j + 1];
      DistinctCount(t);
      assert (set p | p in s) == {s[0]} + (set p | p in t);
      assert s[0] !in t;
    }
  }

  /** `process_custom_properties`: each free-text field is kept as typed, or is nothing
      when blank. */
  function ProcessCustomProperties(eutectic: string, doi: string): (r: map<string, Option<string>>)
    ensures r.Keys == {"Eutectic", "Doi"}
    ensures r["Eutectic"] == if IsBlank(eutectic) then None else Some(eutectic)
    ensures r["Doi"] == if IsBlank(doi) then None else Some(doi)
  {
    map["Eutectic" := if Strip(eutectic) != "" then Some(eutectic) else None,
        "Doi" := if Strip(doi) != "" then Some(doi) else None]
  }

  /** The value a valid property entry stores: nothing when blank, else the number. */
  function StoredValue(v: PropertyValue): (r: Option<Float>)
    requires !v.Invalid?
    ensures r.Some? <==> v.Number?
    ensures v.Number? ==> r == Some(v.value)
    ensures v.Blank? ==> r == None
  {
    if v.Number? then Some(v.value) else None
  }

  /** Entry `i` is the first one whose text `process` refuses. */
  predicate FirstInvalid(entries: seq<(string, string)>, process: string -> PropertyValue, i: nat)
    requires i < |entries|
  {
    process(entries[i].1).Invalid? &&
    forall j :: 0 <= j < i ==> !process(entries[j].1).Invalid?
  }

  /** The entries processed in turn by `process`: the values stored by name, or the
      message shown for the first entry refused. */
  function CollectWith(entries: seq<(string, string)>, process: string -> PropertyValue): Result<map<string, Option<Float>>, string>
    decreases |entries|
  {
    if entries == [] then Ok(map[])
    else
      var prev := CollectWith(entries[..|entries| - 1], process);
      var (name, text) := entries[|entries| - 1];
      var v := process(text);
      if prev.Err? then prev
      else if v.Invalid? then Err(name + ": " + v.message)
      else Ok(prev.value[name := StoredValue(v)])
  }

  /** The property form's entries, each processed by `process_property_input`. */
  function Collected(entries: seq<(string, string)>): Result<map<string, Option<Float>>, string> {
    CollectWith(entries, ProcessPropertyInput)
  }

  /** Once an entry is refused, the later entries change nothing. */
  lemma {:induction false} CollectStopsAtError(entries: seq<(string, string)>, process: string -> PropertyValue, k: nat)
    requires k <= |entries| && CollectWith(entries[..k], process).Err?
    ensures CollectWith(entries, process) == CollectWith(entries[..k], process)
    decreases |entries| - k
  {
    if k < |entries| {
      var p := entries[..|entries| - 1];
      assert p[..k] == entries[..k];
      CollectStopsAtError(p, process, k);
    } else {
      assert entries[..k] == entries;
    }
  }

  /** Collecting succeeds exactly when no entry is refused. */
  lemma {:induction false} CollectSucceeds(entries: seq<(string, string)>, process: string -> PropertyValue)
    ensures CollectWith(entries, process).Ok? <==> forall i :: 0 <= i < |entries| ==> !process(entries[i].1).Invalid?
    decreases |entries|
  {
    if entries != [] {
      var n := |entries| - 1;
      var p := entries[..n];
      CollectSucceeds(p, process);
      assert forall i :: 0 <= i < n ==> p[i] == entries[i];
    }
  }

  /** A successful collection stores, under each entry's name, what its text yields. */
  lemma CollectValues(entries: seq<(string, string)>, process: string -> PropertyValue)
    requires forall i, j :: 0 <= i < j < |entries| ==> entries[i].0 != entries[j].0
    ensures CollectWith(entries, process).Ok? ==>
      CollectWith(entries, process).value.Keys == (set i | 0 <= i < |entries| :: entries[i].0)
    ensures CollectWith(entries, process).Ok? ==> forall i :: 0 <= i < |entries| ==>
      !process(entries[i].1).Invalid? &&
      CollectWith(entries, process).value[entries[i].0] == StoredValue(process(entries[i].1))
  {
    CollectKeys(entries, process);
    if CollectWith(entries, process).Ok? {
      forall i | 0 <= i < |entries|
        ensures !process(entries[i].1).Invalid?
        ensures CollectWith(entries, process).value[entries[i].0] == StoredValue(process(entries[i].1))
      {
        CollectValueAt(entries, process, i);
      }
    }
  }

  /** A successful collection has one key per entry name. */
  lemma {:induction false} CollectKeys(entries: seq<(string, string)>, process: string -> PropertyValue)
    ensures CollectWith(entries, process).Ok? ==>
      CollectWith(entries, process).value.Keys == (set i | 0 <= i < |entries| :: entries[i].0)
    decreases |entries|
  {
    if entries != [] && CollectWith(entries, process).Ok? {
      var n := |entries| - 1;
      var p := entries[..n];
      CollectKeys(p, process);
      assert forall i :: 0 <= i < n ==> p[i] == entries[i];
      assert (set i | 0 <= i < |entries| :: entries[i].0) == (set i | 0 <= i < n :: p[i].0) + {entries[n].0};
    }
  }

  /** In a successful collection with distinct names, entry `i` was accepted and its
      value is stored under its name. */
  lemma {:induction false} CollectValueAt(entries: seq<(string, string)>, process: string -> PropertyValue, i: nat)
    requires forall a, b :: 0 <= a < b < |entries| ==> entries[a].0 != entries[b].0
    requires i < |entries| && CollectWith(entries, process).Ok?
    ensures !process(entries[i].1).Invalid?
    ensures entries[i].0 in CollectWith(entries, process).value
    ensures CollectWith(entries, process).value[entries[i].0] == StoredValue(process(entries[i].1))
    decreases |entries|
  {
    var n := |entries| - 1;
    var p := entries[..n];
    assert CollectWith(p, process).Ok?;
    if i < n {
      assert forall a :: 0 <= a < n ==> p[a] == entries[a];
      CollectValueAt(p, process, i);
      assert entries[i].0 != entries[n].0;
    }
  }

  /** A failed collection reports the first entry refused. */
  lemma {:induction false} CollectReportsFirst(entries: seq<(string, string)>, process: string -> PropertyValue)
    requires forall t :: process(t).Invalid? ==> process(t).message == InvalidNumberMessage
    ensures CollectWith(entries, process).Err? ==>
      exists i :: 0 <= i < |entries| && FirstInvalid(entries, process, i) &&
        CollectWith(entries, process).error == entries[i].0 + ": " + InvalidNumberMessage
    decreases |entries|
  {
    if entries != [] {
      var n := |entries| - 1;
      var p := entries[..n];
      CollectReportsFirst(p, process);
      var prev := CollectWith(p, process);
      if prev.Err? {
        var i :| 0 <= i < n && FirstInvalid(p, process, i) && prev.error == p[i].0 + ": " + InvalidNumberMessage;
        FirstInvalidExtends(entries, process, i);
        assert p[i] == entries[i];
      } else if process(entries[n].1).Invalid? {
        FirstInvalidLast(entries, process);
      }
    }
  }

  /** The first refused entry of all but the last entry is the first refused entry of all. */
  lemma FirstInvalidExtends(entries: seq<(string, string)>, process: string -> PropertyValue, i: nat)
    requires i + 1 < |entries| && FirstInvalid(entries[..|entries| - 1], process, i)
    ensures FirstInvalid(entries, process, i)
  {
    var p := entries[..|entries| - 1];
    assert forall j :: 0 <= j <= i ==> p[j] == entries[j];
  }

  /** When all but the last entry succeed and the last is refused, it is the first refused. */
  lemma FirstInvalidLast(entries: seq<(string, string)>, process: string -> PropertyValue)
    requires entries != [] && CollectWith(entries[..|entries| - 1], process).Ok?
    requires process(entries[|entries| - 1].1).Invalid?
    ensures FirstInvalid(entries, process, |entries| - 1)
  {
    var n := |entries| - 1;
    var p := entries[..n];
    CollectSucceeds(p, process);
    assert forall j :: 0 <= j < n ==> p[j] == entries[j];
  }

  /** One more entry: with the entries before `i` collected into `data`, entry `i` either
      stops the collection with its message or is stored under its name. */
  lemma CollectAdvance(entries: seq<(string, string)>, process: string -> PropertyValue, i: nat,
                       data: map<string, Option<Float>>, value: PropertyValue)
    requires i < |entries| && CollectWith(entries[..i], process) == Ok(data)
    requires value == process(entries[i].1)
    ensures CollectWith(entries[..i + 1], process) ==
      if value.Invalid? then Err(entries[i].0 + ": " + value.message)
      else Ok(data[entries[i].0 := StoredValue(value)])
  {
    assert entries[..i + 1][..i] == entries[..i];
  }

  /** The form's entries: stored by name when every text is blank or a number, otherwise
      the message for the first text refused. */
  lemma CollectedFacts(entries: seq<(string, string)>)
    requires forall i, j :: 0 <= i < j < |entries| ==> entries[i].0 != entries[j].0
    ensures Collected(entries).Ok? <==> forall i :: 0 <= i < |entries| ==> !ProcessPropertyInput(entries[i].1).Invalid?
    ensures Collected(entries).Ok? ==> forall i :: 0 <= i < |entries| ==>
      entries[i].0 in Collected(entries).value &&
      Collected(entries).value[entries[i].0] == StoredValue(ProcessPropertyInput(entries[i].1))
    ensures Collected(entries).Err? ==>
      exists i :: 0 <= i < |entries| && FirstInvalid(entries, ProcessPropertyInput, i) &&
        Collected(entries).error == entries[i].0 + ": " + InvalidNumberMessage
  {
    CollectSucceeds(entries, ProcessPropertyInput);
    CollectValues(entries, ProcessPropertyInput);
    CollectReportsFirst(entries, ProcessPropertyInput);
  }

  /** The loop of `submit_performance_data` over the property form (name and text of each
      entry): every entry processed in turn, stopping at the first one refused. */
  method CollectPerformanceData(entries: seq<(string, string)>) returns (r: Result<map<string, Option<Float>>, string>)
    ensures r == Collected(entries)
  {
    var data: map<string, Option<Float>> := map[];
    for i := 0 to |entries|
      invariant CollectWith(entries[..i], ProcessPropertyInput) == Ok(data)
    {
      var (name, text) := entries[i];
      var value := ProcessPropertyInput(text);
      CollectAdvance(entries, ProcessPropertyInput, i, data, value);
      if value.Invalid? {
        CollectStopsAtError(entries, ProcessPropertyInput, i + 1);
        return Err(name + ": " + value.message);
      }
      data := data[name := StoredValue(value)];
    }
    assert entries[..|entries|] == entries;
    r := Ok(data);
  }
}
