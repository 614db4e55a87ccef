/** The dataset side: looking up an alloy among the stored rows, and assembling the row
    written for a new alloy. */
module Dataset {
  import opened Wrappers
  import opened PyFloat
  import opened Sums

  /** A cell of the sheet: empty, text, or a number. */
  datatype Cell = Empty | Text(text: string) | Number(value: Float)

  /** A row of the sheet, by column name. */
  type Row = map<string, Cell>

  /** The sheet: its column names and its rows, each with exactly those columns. */
  datatype Table = Table(columns: set<string>, rows: seq<Row>)

  predicate ValidTable(t: Table) {
    forall i :: 0 <= i < |t.rows| ==> t.rows[i].Keys == t.columns
  }

  /** The row holds, in every column the composition names, exactly that percentage. */
  predicate Agrees(row: Row, composition: map<string, real>) {
    forall e :: e in composition ==> e in row && row[e] == Number(Finite(composition[e]))
  }

  /** The rows that agree with the composition, in their order. */
  function SelectMatching(rows: seq<Row>, composition: map<string, real>): (sel: seq<Row>)
    ensures |sel| <= |rows|
    ensures forall i :: 0 <= i < |sel| ==> Agrees(sel[i], composition)
    decreases |rows|
  {
    if rows == [] then []
    else
      var rest := SelectMatching(rows[1..], composition);
      if Agrees(rows[0], composition) then [rows[0]] + rest else rest
  }

  /** The selection keeps every agreeing row as often as it occurs, and no other row. */
  lemma {:induction false} SelectMatchingCount(rows: seq<Row>, composition: map<string, real>, row: Row)
    ensures multiset(SelectMatching(rows, composition))[row] ==
      if Agrees(row, composition) then multiset(rows)[row] else 0
    decreases |rows|
  {
    if rows != [] {
      var head := if Agrees(rows[0], composition) then [rows[0]] else [];
      SelectMatchingCount(rows[1..], composition, row);
      assert SelectMatching(rows, composition) == head + SelectMatching(rows[1..], composition);
      assert multiset(rows) == multiset([rows[0]]) + multiset(rows[1..]) by {
        assert rows == [rows[0]] + rows[1..];
      }
    }
  }

  /** Selecting from two runs of rows is selecting from each, in order. */
  lemma {:induction false} SelectMatchingAppend(a: seq<Row>, b: seq<Row>, composition: map<string, real>)
    ensures SelectMatching(a + b, composition) == SelectMatching(a, composition) + SelectMatching(b, composition)
    decreases |a|
  {
    if a != [] {
      assert (a + b)[1..] == a[1..] + b;
      SelectMatchingAppend(a[1..], b, composition);
    } else {
      assert a + b == b;
    }
  }

  /** An empty composition constrains nothing: every row is selected. */
  lemma {:induction false} SelectMatchingEmpty(rows: seq<Row>)
    ensures SelectMatching(rows, map[]) == rows
    decreases |rows|
  {
    if rows != [] {
      SelectMatchingEmpty(rows[1..]);
    }
  }

  /** `check_if_alloy_exists`: whether some row agrees with the composition, and the rows
      that do. Every key of the composition must be a column of the sheet. */
  function CheckIfAlloyExists(table: Table, composition: map<string, real>): (r: (bool, seq<Row>))
    requires ValidTable(table) && composition.Keys <= table.columns
    ensures r.0 <==> exists i :: 0 <= i < |table.rows| && Agrees(table.rows[i], composition)
    ensures forall row :: multiset(r.1)[row] == if Agrees(row, composition) then multiset(table.rows)[row] else 0
  {
    var sel := SelectMatching(table.rows, composition);
    forall row ensures multiset(sel)[row] == if Agrees(row, composition) then multiset(table.rows)[row] else 0 {
      SelectMatchingCount(table.rows, composition, row);
    }
    assert sel != [] <==> exists i :: 0 <= i < |table.rows| && Agrees(table.rows[i], composition) by {
      if sel != [] {
        assert sel[0] in multiset(sel);
        assert sel[0] in multiset(table.rows);
        var i :| 0 <= i < |table.rows| && table.rows[i] == sel[0];
      }
      if exists i :: 0 <= i < |table.rows| && Agrees(table.rows[i], composition) {
        var i :| 0 <= i < |table.rows| && Agrees(table.rows[i], composition);
        assert table.rows[i] in multiset(table.rows);
      }
    }
    (sel != [], sel)
  }

  // ----- The row written for a new alloy -----

  /** The element columns every stored row carries. */
  const TrackedElements: set<string> :=
    {"Fe", "Ni", "Cr", "Al", "Ti", "Mo", "Nb", "V", "Co", "Mn", "Cu", "Zr", "Hf", "Ta", "Si", "W"}

  /** `filled` is `composition` with a 0 for every tracked element it lacks. */
  predicate IsZeroFilled(composition: map<string, real>, filled: map<string, real>) {
    filled.Keys == composition.Keys + TrackedElements &&
    (forall e :: e in composition ==> filled[e] == composition[e]) &&
    (forall e :: e in TrackedElements && e !in composition ==> filled[e] == 0.0)
  }

  /** The zero-fill of `submit_performance_data`: a 0 for each tracked element missing. */
  method ZeroFill(composition: map<string, real>) returns (filled: map<string, real>)
    ensures IsZeroFilled(composition, filled)
  {
    filled := composition;
    var missing := TrackedElements - composition.Keys;
    while missing != {}
      invariant missing <= TrackedElements - composition.Keys
      invariant filled.Keys == composition.Keys + (TrackedElements - composition.Keys - missing)
      invariant forall e :: e in composition ==> filled[e] == composition[e]
      invariant forall e :: e in filled && e !in composition ==> filled[e] == 0.0
      decreases missing
    {
      var e :| e in missing;
      filled := filled[e := 0.0];
      missing := missing - {e};
    }
  }

  /** Zero-filling again changes nothing. */
  lemma ZeroFillIdempotent(composition: map<string, real>, filled: map<string, real>, again: map<string, real>)
    requires IsZeroFilled(composition, filled) && IsZeroFilled(filled, again)
    ensures again == filled
  {
  }

  /** The zeros added do not change the total: percentages still add up as before. */
  lemma ZeroFillKeepsSum(composition: map<string, real>, filled: map<string, real>)
    requires IsZeroFilled(composition, filled)
    ensures Sum(filled) == Sum(composition)
  {
    ZeroFillSumOver(composition, filled, filled.Keys);
    assert filled.Keys * composition.Keys == composition.Keys;
  }

  lemma {:induction false} ZeroFillSumOver(composition: map<string, real>, filled: map<string, real>, ks: set<string>)
    requires IsZeroFilled(composition, filled) && ks <= filled.Keys
    ensures SumOver(filled, ks) == SumOver(composition, ks * composition.Keys)
    decreases ks
  {
    if ks != {} {
      var k := Pick(ks);
      ZeroFillSumOver(composition, filled, ks - {k});
      assert (ks - {k}) * composition.Keys == ks * composition.Keys - {k};
      if k in composition {
        SumOverRemove(composition, ks * composition.Keys, k);
      } else {
        assert ks * composition.Keys - {k} == ks * composition.Keys;
      }
    }
  }

  /** A row that agrees with the zero-filled composition agrees with the composition: the
      filled one only asks for more zeros. */
  lemma ZeroFillNarrowsMatches(composition: map<string, real>, filled: map<string, real>, row: Row)
    requires IsZeroFilled(composition, filled)
    ensures Agrees(row, filled) ==> Agrees(row, composition)
    ensures Agrees(row, composition) ==>
      (Agrees(row, filled) <==> forall e :: e in TrackedElements && e !in composition ==> e in row && row[e] == Number(Finite(0.0)))
  {
  }

  function RealCell(x: real): Cell { Number(Finite(x)) }

  function FloatCell(v: Option<Float>): Cell { if v.Some? then Number(v.value) else Empty }

  function FlagCell(v: Option<nat>): Cell { if v.Some? then Number(Finite(v.value as real)) else Empty }

  function TextCell(v: Option<string>): Cell { if v.Some? then Text(v.value) else Empty }

  /** The cells one `update` call writes, one per key of its part. */
  function RealCells(m: map<string, real>): (r: Row)
    ensures r.Keys == m.Keys && forall k :: k in r ==> r[k] == RealCell(m[k])
  {
    map k | k in m :: RealCell(m[k])
  }

  function FloatCells(m: map<string, Option<Float>>): (r: Row)
    ensures r.Keys == m.Keys && forall k :: k in r ==> r[k] == FloatCell(m[k])
  {
    map k | k in m :: FloatCell(m[k])
  }

  function FlagCells(m: map<string, Option<nat>>): (r: Row)
    ensures r.Keys == m.Keys && forall k :: k in r ==> r[k] == FlagCell(m[k])
  {
    map k | k in m :: FlagCell(m[k])
  }

  function TextCells(m: map<string, Option<string>>): (r: Row)
    ensures r.Keys == m.Keys && forall k :: k in r ==> r[k] == TextCell(m[k])
  {
    map k | k in m :: TextCell(m[k])
  }

  /** What a column of the assembled row holds: the value of the last update naming it
      (free text, then phases, then properties, then elements, then the formula). */
  function AssembledCell(alloy: string, composition: map<string, real>, performance: map<string, Option<Float>>,
                         phases: map<string, Option<nat>>, custom: map<string, Option<string>>, k: string): Cell
  {
    if k in custom then TextCell(custom[k])
    else if k in phases then FlagCell(phases[k])
    else if k in performance then FloatCell(performance[k])
    else if k in composition then RealCell(composition[k])
    else Text(alloy)
  }

  /** `row` has a column for the formula and for every key of the four parts, each holding
      what the last update naming it wrote. */
  predicate IsAssembled(row: Row, alloy: string, composition: map<string, real>, performance: map<string, Option<Float>>,
                        phases: map<string, Option<nat>>, custom: map<string, Option<string>>)
  {
    row.Keys == {"Alloy"} + composition.Keys + performance.Keys + phases.Keys + custom.Keys &&
    forall k :: k in row ==> row[k] == AssembledCell(alloy, composition, performance, phases, custom, k)
  }

  /** The row made by the four updates of `submit_performance_data`, in their order. */
  function Merged(alloy: string, composition: map<string, real>, performance: map<string, Option<Float>>,
                  phases: map<string, Option<nat>>, custom: map<string, Option<string>>): Row
  {
    map["Alloy" := Text(alloy)] + RealCells(composition) + FloatCells(performance) + FlagCells(phases) + TextCells(custom)
  }

  /** Each column of the merged row holds what the last update naming it wrote. */
  lemma MergedCell(alloy: string, composition: map<string, real>, performance: map<string, Option<Float>>,
                   phases: map<string, Option<nat>>, custom: map<string, Option<string>>, k: string)
    requires k in Merged(alloy, composition, performance, phases, custom)
    ensures Merged(alloy, composition, performance, phases, custom)[k] ==
      AssembledCell(alloy, composition, performance, phases, custom, k)
  {
    var base: Row := map["Alloy" := Text(alloy)];
    var r1 := base + RealCells(composition);
    var r2 := r1 + FloatCells(performance);
    var r3 := r2 + FlagCells(phases);
    if k in custom {
    } else if k in phases {
      assert Merged(alloy, composition, performance, phases, custom)[k] == r3[k];
    } else if k in performance {
      assert Merged(alloy, composition, performance, phases, custom)[k] == r2[k];
    } else if k in composition {
      assert Merged(alloy, composition, performance, phases, custom)[k] == r1[k];
    } else {
      assert Merged(alloy, composition, performance, phases, custom)[k] == base[k];
    }
  }

  lemma MergedIsAssembled(alloy: string, composition: map<string, real>, performance: map<string, Option<Float>>,
                          phases: map<string, Option<nat>>, custom: map<string, Option<string>>)
    ensures IsAssembled(Merged(alloy, composition, performance, phases, custom), alloy, composition, performance, phases, custom)
  {
    var row := Merged(alloy, composition, performance, phases, custom);
    forall k | k in row ensures row[k] == AssembledCell(alloy, composition, performance, phases, custom, k) {
      MergedCell(alloy, composition, performance, phases, custom, k);
    }
  }

  /** The row of `submit_performance_data`: the formula under "Alloy", then the updates
      with the elements, the properties, the phases and the free-text fields. */
  method AssembleRow(alloy: string, composition: map<string, real>, performance: map<string, Option<Float>>,
                     phases: map<string, Option<nat>>, custom: map<string, Option<string>>) returns (row: Row)
    ensures IsAssembled(row, alloy, composition, performance, phases, custom)
  {
    row := map["Alloy" := Text(alloy)];
    row := row + RealCells(composition);
    row := row + FloatCells(performance);
    row := row + FlagCells(phases);
    row := row + TextCells(custom);
    MergedIsAssembled(alloy, composition, performance, phases, custom);
  }

  /** When no other field shares a name with an element, the assembled row agrees with the
      composition it was built from, so a later lookup finds it. */
  lemma AssembledRowAgrees(row: Row, alloy: string, composition: map<string, real>, performance: map<string, Option<Float>>,
                           phases: map<string, Option<nat>>, custom: map<string, Option<string>>)
    requires IsAssembled(row, alloy, composition, performance, phases, custom)
    requires composition.Keys !! performance.Keys && composition.Keys !! phases.Keys && composition.Keys !! custom.Keys
    ensures Agrees(row, composition)
  {
    forall e | e in composition ensures e in row && row[e] == Number(Finite(composition[e])) {
      assert e !in custom && e !in phases && e !in performance;
    }
  }

  /** A row appended to the sheet is the last one selected by a composition it agrees with. */
  lemma AppendedRowFound(rows: seq<Row>, row: Row, composition: map<string, real>)
    requires Agrees(row, composition)
    ensures SelectMatching(rows + [row], composition) == SelectMatching(rows, composition) + [row]
  {
    SelectMatchingAppend(rows, [row], composition);
    assert [row][1..] == [];
  }
}
