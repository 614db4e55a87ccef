# Alloy composition and record core

This project models the core of the alloy data-collection tool in `data_GUI.py`, in Dafny, with proofs about it:

- **The formula parser.** `parse_alloy_composition` turns a loosely written alloy formula such as `(Fe80Ni20)5Cr95` into the share of each element in percent.
- **The three field classifiers.** These are `process_property_input`, `process_phase_properties` and `process_custom_properties`. They turn what the user typed on the form into stored values.
- **The duplicate check, `check_if_alloy_exists`.** It picks the stored rows whose element columns equal a parsed composition.
- **The row-building part of `submit_performance_data`:**
  - the property loop that stops at the first entry it refuses;
  - the zero-fill over the sixteen tracked elements;
  - the `update` chain that merges everything into the row written to the sheet.

The modules follow the program's layers:

| module | file | what it holds |
|---|---|---|
| `Wrappers` | `wrappers.dfy` | `Option` and `Result` |
| `Text` | `text.dfy` | `str.replace(" ", "")`, `str.strip()` and greedy regular-expression runs |
| `Numerals` | `numerals.dfy` | decimal digit text and its exact value |
| `PyFloat` | `pyfloat.dfy` | Python's `float()` on a string: leading and trailing whitespace (every `str.isspace()` character except U+001C to U+001F, which CPython's `float()` does not strip), an optional sign, `inf`/`infinity`/`nan` in any letter case, digit parts with `_`, a fraction and an exponent. Finite values are exact reals |
| `Sums` | `sums.dfy` | `sum(d.values())` over a map, independent of key order |
| `Formula` | `formula.dfy` | the two `re.findall` calls as a hand-written scanner, and the token datatype |
| `Composition` | `composition.dfy` | the parser and its specification |
| `CompositionExamples` | `composition_examples.dfy` | worked formulas |
| `Records` | `records.dfy` | the three field classifiers and the property loop |
| `Dataset` | `dataset.dfy` | the duplicate check, the zero-fill and the row assembly |

The parser mutates its map across three loops, so it is written as methods with loops: `OuterPass`, `InnerTotalPass`, `GroupPass`, `SumValues` and `Rescale`. `ParseAlloyComposition` chains them in the source's order. Each method is proved equal to a specification function: `OuterCounts`, `LastGroup`, `InnerTotal`, `AddGroup` and `Normalize`, combined in `CompositionOf`. The lemmas about the parser are stated on those functions.

The phase loop, the property loop, the zero-fill and the `update` chain are methods too. The classifiers and the duplicate check are pure and are written as functions.

A few behaviours of the code that a reader might not expect, and that the model keeps:

- `check_if_alloy_exists` compares only the keys of the parsed composition (line 103), and it is called before the zero-fill (line 381). `CheckIfAlloyExists` compares those keys and no others.
- A formula with no element token (`""`, `"123"`, `"fe2"`) gives an empty map and no error, as `NoUpperGivesEmpty` states.
- A group body is any non-empty run of `[A-Za-z0-9.]` between the parentheses, and the scanner accepts exactly that.
- A zero total raises `ZeroDivisionError` (lines 56 and 62); the model reports it as `DivisionByZero`.

## Model

| member | source | states |
|---|---|---|
| Text.RemoveSpaces | data_GUI.py:29 | no space is left in the result, every other character keeps its number of occurrences, and text without a space is unchanged |
| Text.RemoveSpacesConcat | data_GUI.py:29 | removing spaces from a concatenation is removing them from each part and concatenating, so the result is fixed character by character |
| Text.RemoveSpacesChar | data_GUI.py:29 | a single space is dropped and any other single character is kept; with RemoveSpacesConcat this pins down the whole operation |
| Text.Strip | data_GUI.py:68 | the stripped text is empty exactly when the text is all whitespace; otherwise it neither starts nor ends with whitespace; text with no whitespace at either end is unchanged |
| Text.StripWithSlice | data_GUI.py:68 | for any predicate of characters to strip, the kept text is one contiguous slice, and every character dropped before or after it satisfies the predicate |
| Text.StripSlice | data_GUI.py:68 | the stripped text is a contiguous slice of the input, and everything cut off before or after it is whitespace |
| Formula.Scan | data_GUI.py:33-34 | every match has the shape the pattern's capture groups allow; with the group alternative off, there are only element matches |
| Formula.GroupAt | data_GUI.py:33 | the group alternative yields a well-formed group token and consumes at least one character |
| Formula.ElementAt | data_GUI.py:33 | the element alternative yields a symbol `[A-Z][a-z]*` with decimal count text and consumes at least one character |
| Formula.CountLengthDecimal | data_GUI.py:33 | what the greedy count `\d*\.?\d*` takes is digits, at most one '.', digits |
| Formula.CountLengthBeforeToken | data_GUI.py:33 | a count followed by '(' or an upper-case letter is read exactly to its end |
| Formula.ElementAtText | data_GUI.py:33 | the element alternative reads back a written element token and its length |
| Formula.GroupAtText | data_GUI.py:33 | the group alternative accepts a written group token and reads back its body, its multiplier and its length |
| Formula.ScanToken | data_GUI.py:33-34 | scanning a written token followed by more formula yields that token, then the scan of the rest |
| Formula.ScanRender | data_GUI.py:33-34 | the scanner reads back every well-formed token sequence from its written form (every group-free one when groups are off) |
| Formula.ScanNoUpper | data_GUI.py:33-34 | text without an upper-case letter yields no element match, only groups whose bodies have none either |
| Formula.RenderNoSpace | data_GUI.py:29 | a formula written out from tokens holds no space, so removing spaces leaves it as it is |
| Composition.Amount | data_GUI.py:46 | the amount of a count is never negative |
| Composition.FloatOfCount | data_GUI.py:46 | float() of a non-empty count raises exactly when the count is a lone '.', and otherwise yields its exact decimal value |
| Composition.AmountOfDigits | data_GUI.py:44 | a multiplier (digits only) always converts |
| Composition.ConvertCount | data_GUI.py:44-46 | `float(c) if c else 1`: 1 for an empty count, None where float() raises, the amount otherwise |
| Composition.LastGroup | data_GUI.py:42-44 | the group kept is a group token among the matches |
| Composition.LastGroupIsLast | data_GUI.py:41-44 | a group is kept exactly when one is written, and the one kept has no group written after it: each group overwrites the one before |
| Composition.GroupMultiplier | data_GUI.py:44 | the multiplier kept is never negative |
| Composition.GroupMultiplierValue | data_GUI.py:37-44 | the multiplier is 1 when there is no group or its multiplier is empty, and otherwise exactly what float() makes of its digits |
| Composition.OuterPass | data_GUI.py:41-48 | the match loop succeeds exactly when every count converts, and then yields the outer counts, the body of the last group and its multiplier |
| Composition.InnerTotalPass | data_GUI.py:51-52 | the sum over the group body succeeds exactly when every inner count converts, and yields the sum of the inner amounts |
| Composition.GroupPass | data_GUI.py:54-57 | the second loop fails exactly when the body has matches and a zero total; otherwise each inner element adds its share times the multiplier |
| Composition.SumValues | data_GUI.py:60 | the loop computes the order-independent sum of the map's values |
| Composition.Rescale | data_GUI.py:60-62 | the last loop turns every amount into its percentage of the total, and fails with a division by zero when the map is non-empty and the total is 0 |
| Composition.ParseAlloyComposition | data_GUI.py:27-64 | the pass-by-pass parser yields exactly the specified composition, or the specified error |
| Composition.OuterCountsKeys | data_GUI.py:41-48 | the first pass has an entry for exactly the element symbols outside groups, none negative |
| Composition.OuterCountsLastWins | data_GUI.py:46-48 | outside groups a repeated symbol keeps the amount of its last match, not a sum; a missing count stands for 1 |
| Composition.OuterCountsSkipGroup | data_GUI.py:41-48 | a group match leaves the outer counts as they are |
| Composition.LastGroupSkipsEarlier | data_GUI.py:42-44 | removing a group that has another group after it does not change which group is kept |
| Composition.EarlierGroupIgnored | data_GUI.py:41-57 | removing a group that some later group overrides does not change the result |
| Composition.InnerTotalZero | data_GUI.py:52-56 | the body's total is never negative, and it is 0 exactly when every amount in the body is 0 |
| Composition.AddGroupFacts | data_GUI.py:54-57 | the second loop touches only the body's symbols, keeps every other value, adds exactly the body's total as a share of itself times the multiplier, and keeps amounts non-negative |
| Composition.AddGroupAt | data_GUI.py:54-57 | the second loop accumulates: each symbol ends with its earlier amount plus the share of the sum of all its amounts in the body |
| Composition.RawCountsFacts | data_GUI.py:30-57 | before rescaling there is one entry per symbol outside groups or in the kept group, none negative |
| Composition.RawCountsAt | data_GUI.py:41-57 | before rescaling each symbol has its outer amount (0 when it is not written outside the group) plus its share of the kept group's body, where it may be written several times |
| Composition.NormalizeKeys | data_GUI.py:60-62 | rescaling keeps the keys, and fails with a division by zero exactly when there are amounts and all are 0 |
| Composition.NormalizeBounds | data_GUI.py:62 | every percentage lies between 0 and 100 |
| Composition.NormalizeSum | data_GUI.py:60-62 | the percentages of a non-empty result add up to 100 |
| Composition.NormalizeScaled | data_GUI.py:60-62 | multiplying every amount by the same positive factor does not change the result |
| Composition.NormalizeIdempotent | data_GUI.py:60-62 | rescaling a result again changes nothing |
| Composition.FromTokensShares | data_GUI.py:27-64 | a successful parse has one key per symbol outside groups or in the kept group, each value in [0, 100], together 100 |
| Composition.FromTokensErrors | data_GUI.py:27-64 | the parse is InvalidNumber exactly when some count (outside, or in the kept body) is a lone '.'; once every count converts, the kept body's own total is zero (DivisionByZero, line 56) exactly when that body has matches and all their amounts are 0; once the raw counts exist, the final division fails exactly when there are amounts and all are 0 (line 62); every error is one of these |
| Composition.CompositionOfRender | data_GUI.py:29-34 | parsing a formula written out from tokens works on exactly those tokens |
| Composition.NoUpperGivesEmpty | data_GUI.py:27-64 | a formula with no upper-case letter ("", "123", "fe2") gives the empty map and no error |
| CompositionExamples.ZeroAmount | data_GUI.py:60-62 | "Fe0" fails with a division by zero |
| CompositionExamples.LoneDot | data_GUI.py:46 | "Fe." fails because float() refuses "." |
| CompositionExamples.EvenPair | data_GUI.py:27-64 | "Fe50Ni50" gives Fe 50 and Ni 50 |
| CompositionExamples.GroupShare | data_GUI.py:27-64 | "(FeNi)2Cr2" gives Cr 50, Fe 25 and Ni 25: the group's two units are split between its elements |
| PyFloat.ParseFloat | data_GUI.py:71 | float(), also applied to counts and multipliers at lines 44, 46, 52 and 55, refuses text that is empty once its whitespace is stripped; the values it gives are stated by the lemmas below and by Records.PropertyInputOfSeparator |
| PyFloat.ParseFloatOfDecimalText | data_GUI.py:46 | float() of digits-dot-digits text is its exact decimal value, except a lone '.', which it refuses |
| PyFloat.ParseFloatOfNatToString | data_GUI.py:71 | float() reads back the decimal rendering of a natural number |
| Records.ProcessPropertyInput | data_GUI.py:67-73 | blank text gives no value; otherwise float() of the text when float() accepts it, and the fixed error message when it raises |
| Records.PropertyInputOfNumber | data_GUI.py:67-73 | the decimal rendering of a natural number is stored as that number |
| Records.PropertyInputOfFloat | data_GUI.py:70-71 | non-blank text that float() accepts is stored as that float |
| Records.PropertyInputOfRefused | data_GUI.py:70-73 | non-blank text that float() refuses gets the error message |
| Records.PropertyInputOfDot | data_GUI.py:72-73 | "." gets the error message |
| Records.PropertyInputOfSeparator | data_GUI.py:68-73 | "5" followed by U+001F is not blank after `strip()`, which drops the U+001F, yet `float()` keeps that character and refuses the text, so the entry gets the error message |
| Records.ProcessPhaseProperties | data_GUI.py:76-91 | the loop gives an entry for exactly the listed phases, each holding its phase flag |
| Records.PhaseCount | data_GUI.py:77 | there are exactly eight phases |
| Records.PhaseFlags | data_GUI.py:81-89 | with no "Yes" selection every phase is empty; with one, every phase holds Some(1) or Some(0), and Some(1) exactly when its own selection is "Yes" |
| Records.ProcessCustomProperties | data_GUI.py:94-98 | exactly the keys "Eutectic" and "Doi"; each is empty when blank and otherwise the text as typed |
| Records.StoredValue | data_GUI.py:287 | an entry that is a number stores that very number, a blank entry stores nothing, and an entry stores a number exactly when it is one |
| Records.CollectStopsAtError | data_GUI.py:283-286 | once an entry is refused, the later entries change nothing |
| Records.CollectSucceeds | data_GUI.py:281-287 | the property loop succeeds exactly when no entry is refused |
| Records.CollectValues | data_GUI.py:281-287 | after a successful loop there is one key per entry name, each storing what its text yields |
| Records.CollectReportsFirst | data_GUI.py:283-286 | a failed loop reports the name of the first entry refused, with the error message |
| Records.CollectedFacts | data_GUI.py:281-287 | the property form: success exactly when no text is refused, then every entry's value is stored by name; otherwise the message for the first refused text |
| Records.CollectPerformanceData | data_GUI.py:281-287 | the loop over the entries yields exactly the specified collection |
| Dataset.SelectMatching | data_GUI.py:103 | only rows that agree with the composition are selected, and no more rows than there are |
| Dataset.SelectMatchingCount | data_GUI.py:103 | each row that agrees is selected as often as it occurs; a row that does not agree is never selected |
| Dataset.SelectMatchingAppend | data_GUI.py:103 | selecting from two runs of rows is selecting from each, in order |
| Dataset.SelectMatchingEmpty | data_GUI.py:103 | an empty composition selects every row |
| Dataset.CheckIfAlloyExists | data_GUI.py:101-104 | the flag is true exactly when some row agrees on every key of the composition; the rows returned are exactly the agreeing ones, each as often as it occurs |
| Dataset.ZeroFill | data_GUI.py:290-293 | every tracked element missing from the composition gets 0, and every existing entry is kept |
| Dataset.ZeroFillIdempotent | data_GUI.py:290-293 | zero-filling a zero-filled composition changes nothing |
| Dataset.ZeroFillKeepsSum | data_GUI.py:290-293 | the zeros added do not change the total |
| Dataset.ZeroFillNarrowsMatches | data_GUI.py:290-293 | a row matching the filled composition matches the original; a row matching the original also matches the filled one exactly when it holds 0 for every added element |
| Dataset.MergedIsAssembled | data_GUI.py:302-307 | the merged row has one column for the formula and one for every key of the four parts; each holds what the last update naming it wrote |
| Dataset.AssembleRow | data_GUI.py:302-307 | the update chain builds exactly that row |
| Dataset.AssembledRowAgrees | data_GUI.py:302-307 | when no property, phase or free-text field shares a name with an element, the assembled row agrees with its composition |
| Dataset.AppendedRowFound | data_GUI.py:311-312 | a row appended to the sheet is selected last by a composition it agrees with |

## Left out

- `round(…, 4)` (line 62) is not modelled: percentages are exact. Two formulas whose exact percentages differ by less than the rounding step would compare equal in the program and not in the model.
- Floating-point arithmetic is replaced by exact reals. This affects every division and sum, overflow to infinity on a count with hundreds of digits, and summation order.
- Non-ASCII digits are not modelled: Python's `\d` and `float()` accept every Unicode decimal digit, and the model accepts only `0`–`9`.
- Composition.NormalizeScaled: the proportionality of two formulas is stated on their amounts, not on their written counts. No lemma rewrites a formula text with scaled counts.
- PyFloat.ParseFloat: negative and signed text is read by the model, but no lemma is stated about it, because the property form only relies on what float() accepts.
- The zero-fill writes the integer 0 and the phase flags are the integers 1 and 0. The model stores them as the numbers 0 and 1, since Python and pandas compare `0 == 0.0` as equal.
- The zero-fill mutates the caller's dictionary in place, and the caller reuses it. The model returns the filled map, so aliasing is not captured.
- Iteration order of the dictionaries is not modelled. Every result is stated independently of it.
- `check_if_alloy_exists` raises a pandas `KeyError` when a composition key is not a column. The model takes "every key is a column" as a precondition.
- Pandas selection details are not modelled: NaN cells and column dtypes. A cell matches exactly when it holds the finite number of the composition.
- The message box of the property loop is not modelled. The loop returns the shown text `"<name>: <message>"` as its error.
- Tkinter windows, Excel reading and writing, backup rotation and the global `df` reloads are left out because they are user-interface and file I/O.
- `save_updated_alloy_data` and `dataframe_to_formatted_string` are not part of this model: they are pandas mutation and string formatting of arbitrary cell values.
- `outer_total` (lines 38 and 47) is computed but never read, so the model does not compute it.
