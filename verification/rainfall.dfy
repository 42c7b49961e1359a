/**
 * The rainfall chart's data preparation: the quote-aware CSV line splitter
 * `parseCSVLine`, the row loop of `loadRainfallData`, and the year-by-month
 * grid of `createDemoRainfallChart`.
 *
 * `parseInt` and `parseFloat` are taken as parameters (a partial parser
 * answers `None` where JavaScript answers NaN); `Math.random` is a sequence
 * of draws in [0, 1).
 */
module Rainfall {
  import opened Wrappers
  import opened Text

  // ---------------------------------------------------------------------
  // parseCSVLine

  /** The loop state of `parseCSVLine`: the fields pushed so far, the field being read, and whether a quote is open. */
  datatype Scan = Scan(values: seq<string>, current: string, inQuotes: bool)

  /** One character of the loop: a quote toggles the state and is dropped, a comma outside quotes ends the field, anything else is kept. */
  function Step(st: Scan, ch: char): Scan
  {
    if ch == '"' then st.(inQuotes := !st.inQuotes)
    else if ch == ',' && !st.inQuotes then Scan(st.values + [st.current], "", st.inQuotes)
    else st.(current := st.current + [ch])
  }

  /** The loop state after reading all of `line`. */
  function ScanAll(line: string): Scan
  {
    if line == [] then Scan([], "", false) else Step(ScanAll(line[..|line| - 1]), line[|line| - 1])
  }

  /** The fields `parseCSVLine(line)` returns: the pushed ones and the last one. */
  function Fields(line: string): seq<string>
  {
    var st := ScanAll(line);
    st.values + [st.current]
  }

  /** `parseCSVLine(line)`. */
  method ParseCSVLine(line: string) returns (values: seq<string>)
    ensures values == Fields(line)
  {
    values := [];
    var current := "";
    var inQuotes := false;
    for i := 0 to |line|
      invariant Scan(values, current, inQuotes) == ScanAll(line[..i])
    {
      assert line[..i + 1][..i] == line[..i];
      var ch := line[i];
      if ch == '"' {
        inQuotes := !inQuotes;
      } else if ch == ',' && !inQuotes {
        values := values + [current];
        current := "";
      } else {
        current := current + [ch];
      }
    }
    assert line[..|line|] == line;
    values := values + [current];
  }

  /** The commas of `s` that stand outside quotes: those preceded by an even number of `"`. */
  function UnquotedCommas(s: string): nat
  {
    if s == [] then 0
    else
      var n := |s| - 1;
      UnquotedCommas(s[..n]) + if s[n] == ',' && Count(s[..n], '"') % 2 == 0 then 1 else 0
  }

  /** `s` with every `"` removed. */
  function RemoveQuotes(s: string): (r: string)
    ensures '"' !in r
  {
    if s == [] then []
    else
      var n := |s| - 1;
      RemoveQuotes(s[..n]) + if s[n] == '"' then [] else [s[n]]
  }

  /** What the loop keeps at every step: the quote state is the parity of the quotes read, and the fields read so far are the quote-free text cut at unquoted commas. */
  lemma {:induction false} ScanMeaning(line: string)
    ensures var st := ScanAll(line);
      && (st.inQuotes <==> Count(line, '"') % 2 == 1)
      && |st.values| == UnquotedCommas(line)
      && Join(st.values + [st.current], ",") == RemoveQuotes(line)
      && '"' !in st.current
      && forall k :: 0 <= k < |st.values| ==> '"' !in st.values[k]
  {
    if line != [] {
      var n := |line| - 1;
      var ch := line[n];
      var prefix := line[..n];
      ScanMeaning(prefix);
      var st := ScanAll(prefix);
      var fields := st.values + [st.current];
      if ch == '"' {
      } else if ch == ',' && !st.inQuotes {
        JoinSnoc(fields, ",", "");
        assert Scan(st.values + [st.current], "", st.inQuotes) == ScanAll(line);
      } else {
        JoinGrowLast(fields, ",", [ch]);
        assert fields[..|fields| - 1] + [fields[|fields| - 1] + [ch]] == Fields(line);
      }
    }
  }

  /**
   * `parseCSVLine` yields one field more than there are commas outside
   * quotes (so an empty line yields one empty field), no field holds a `"`,
   * and joining the fields with "," gives the line back with its quotes
   * removed: commas inside quotes stay in their field, a doubled `""`
   * leaves no literal quote, and an unbalanced quote keeps every later
   * comma in the last field.
   */
  lemma FieldsMeaning(line: string)
    ensures |Fields(line)| == UnquotedCommas(line) + 1
    ensures forall k :: 0 <= k < |Fields(line)| ==> '"' !in Fields(line)[k]
    ensures Join(Fields(line), ",") == RemoveQuotes(line)
  {
    ScanMeaning(line);
  }

  // ---------------------------------------------------------------------
  // The row loop of loadRainfallData

  /** `values[index] ? values[index].trim() : ''`: a missing or empty value becomes "". */
  function Cell(values: seq<string>, j: nat): string
  {
    if j < |values| && values[j] != "" then Trim(values[j]) else ""
  }

  /** Each header with the cell under it. */
  function HeaderCells(headers: seq<string>, values: seq<string>): (pairs: seq<(string, string)>)
    ensures |pairs| == |headers|
    ensures forall j :: 0 <= j < |headers| ==> pairs[j] == (headers[j], Cell(values, j))
  {
    seq(|headers|, j requires 0 <= j < |headers| => (headers[j], Cell(values, j)))
  }

  /** The row object after `headers.forEach(...)`: every trimmed header set, in order, so a repeated header keeps its last value. */
  function RowOf(headers: seq<string>, values: seq<string>): map<string, string>
  {
    AssignTrimmed(HeaderCells(headers, values))
  }

  /** The `forEach` that fills the row object. */
  method AssembleRow(headers: seq<string>, values: seq<string>) returns (row: map<string, string>)
    ensures row == RowOf(headers, values)
  {
    ghost var pairs := HeaderCells(headers, values);
    row := map[];
    for index := 0 to |headers|
      invariant row == AssignTrimmed(pairs[..index])
    {
      assert pairs[..index + 1][..index] == pairs[..index];
      row := row[Trim(headers[index]) := Cell(values, index)];
    }
    assert pairs[..|headers|] == pairs;
  }

  /** A kept row: the text fields, then the fields that `loadRainfallData` converts in place. */
  datatype Reading = Reading(
    row: map<string, string>,
    year: Option<int>,
    month: Option<int>,
    totalRainfall: real,
    maxHourly: Option<real>,
    capacityExceeded: bool)

  /** `parse(row[key])`: an absent key is `undefined`, which no parser accepts. */
  function ParseField<T>(parse: string -> Option<T>, row: map<string, string>, key: string): Option<T>
  {
    if key in row then parse(row[key]) else None
  }

  /** The reading a line gives: none when it has fewer fields than there are headers or when its rainfall total does not parse. */
  function LineReading(headers: seq<string>, line: string, parseInt: string -> Option<int>, parseFloat: string -> Option<real>): (out: seq<Reading>)
    ensures |out| <= 1
  {
    var values := Fields(line);
    if |values| < |headers| then []
    else
      var row := RowOf(headers, values);
      match ParseField(parseFloat, row, "total_rainfall_inches")
      case None => []
      case Some(total) =>
        [Reading(row, ParseField(parseInt, row, "year"), ParseField(parseInt, row, "month"), total,
                 ParseField(parseFloat, row, "max_hourly_rainfall"),
                 "infrastructure_capacity_exceeded" in row && row["infrastructure_capacity_exceeded"] == "Yes")]
  }

  /** The readings of all data lines, in line order. */
  function Readings(headers: seq<string>, lines: seq<string>, parseInt: string -> Option<int>, parseFloat: string -> Option<real>): seq<Reading>
  {
    if lines == [] then []
    else
      var n := |lines| - 1;
      Readings(headers, lines[..n], parseInt, parseFloat) + LineReading(headers, lines[n], parseInt, parseFloat)
  }

  /** The lines of the file and its header fields: the trimmed text cut at newlines, the first line cut at commas. */
  function Lines(content: string): (lines: seq<string>)
    ensures |lines| >= 1
  {
    SplitOn(Trim(content), '\n')
  }

  function Headers(content: string): seq<string>
  {
    SplitOn(Lines(content)[0], ',')
  }

  /** One pass of the row loop: split the line, and keep it as a reading when it is long enough and its total parses. */
  method ReadLine(headers: seq<string>, line: string, parseInt: string -> Option<int>, parseFloat: string -> Option<real>) returns (out: seq<Reading>)
    ensures out == LineReading(headers, line, parseInt, parseFloat)
  {
    out := [];
    var values := ParseCSVLine(line);
    if |values| >= |headers| {
      var row := AssembleRow(headers, values);
      var total := ParseField(parseFloat, row, "total_rainfall_inches");
      if total.Some? {
        out := [Reading(row, ParseField(parseInt, row, "year"), ParseField(parseInt, row, "month"), total.value,
                        ParseField(parseFloat, row, "max_hourly_rainfall"),
                        "infrastructure_capacity_exceeded" in row && row["infrastructure_capacity_exceeded"] == "Yes")];
      }
    }
  }

  lemma ReadingsSnoc(headers: seq<string>, lines: seq<string>, i: nat, parseInt: string -> Option<int>, parseFloat: string -> Option<real>)
    requires i < |lines|
    ensures Readings(headers, lines[..i + 1], parseInt, parseFloat) == Readings(headers, lines[..i], parseInt, parseFloat) + LineReading(headers, lines[i], parseInt, parseFloat)
  {
    assert lines[..i + 1][..i] == lines[..i];
  }

  /** The parsing part of `loadRainfallData`, from the file's text to the rows handed to the chart. */
  method LoadRainfall(content: string, parseInt: string -> Option<int>, parseFloat: string -> Option<real>) returns (data: seq<Reading>)
    ensures data == Readings(Headers(content), Lines(content)[1..], parseInt, parseFloat)
  {
    var lines := SplitOn(Trim(content), '\n');
    var headers := SplitOn(lines[0], ',');
    var body := lines[1..];
    data := [];
    for i := 0 to |body|
      invariant data == Readings(headers, body[..i], parseInt, parseFloat)
    {
      var kept := ReadLine(headers, body[i], parseInt, parseFloat);
      ReadingsSnoc(headers, body, i, parseInt, parseFloat);
      data := data + kept;
    }
    assert body[..|body|] == body;
  }

  /**
   * A line gives a reading exactly when it has at least as many fields as
   * there are headers and its rainfall total parses; the reading's row
   * holds every trimmed header, its total is the parsed value, and its
   * capacity flag is set exactly when the value is "Yes".
   */
  lemma LineReadingMeaning(headers: seq<string>, line: string, parseInt: string -> Option<int>, parseFloat: string -> Option<real>)
    ensures LineReading(headers, line, parseInt, parseFloat) != [] <==>
      |Fields(line)| >= |headers| && ParseField(parseFloat, RowOf(headers, Fields(line)), "total_rainfall_inches").Some?
    ensures forall r :: r in LineReading(headers, line, parseInt, parseFloat) ==>
      && r.row == RowOf(headers, Fields(line))
      && Some(r.totalRainfall) == ParseField(parseFloat, r.row, "total_rainfall_inches")
      && (r.capacityExceeded <==> "infrastructure_capacity_exceeded" in r.row && r.row["infrastructure_capacity_exceeded"] == "Yes")
      && forall j :: 0 <= j < |headers| ==> Trim(headers[j]) in r.row
  {
    AssignTrimmedHasKeys(HeaderCells(headers, Fields(line)));
  }

  /** The readings are those of the single lines, at most one per line. */
  lemma {:induction false} ReadingsFromLines(headers: seq<string>, lines: seq<string>, parseInt: string -> Option<int>, parseFloat: string -> Option<real>)
    ensures |Readings(headers, lines, parseInt, parseFloat)| <= |lines|
    ensures forall r :: r in Readings(headers, lines, parseInt, parseFloat) <==>
      exists i :: 0 <= i < |lines| && r in LineReading(headers, lines[i], parseInt, parseFloat)
  {
    if lines != [] {
      var n := |lines| - 1;
      ReadingsFromLines(headers, lines[..n], parseInt, parseFloat);
      var front := Readings(headers, lines[..n], parseInt, parseFloat);
      var back := LineReading(headers, lines[n], parseInt, parseFloat);
      assert Readings(headers, lines, parseInt, parseFloat) == front + back;
      forall r | r in front + back
        ensures exists i :: 0 <= i < |lines| && r in LineReading(headers, lines[i], parseInt, parseFloat)
      {
        if r in front {
          var i :| 0 <= i < n && r in LineReading(headers, lines[..n][i], parseInt, parseFloat);
          assert lines[..n][i] == lines[i];
        }
      }
      forall r | exists i :: 0 <= i < |lines| && r in LineReading(headers, lines[i], parseInt, parseFloat)
        ensures r in front + back
      {
        var i :| 0 <= i < |lines| && r in LineReading(headers, lines[i], parseInt, parseFloat);
        if i < n {
          assert lines[..n][i] == lines[i];
          assert r in LineReading(headers, lines[..n][i], parseInt, parseFloat);
          assert r in front;
        } else {
          assert i == n;
        }
      }
    }
  }

  // ---------------------------------------------------------------------
  // The demo grid of createDemoRainfallChart

  /** A month of demo data (its `date` is the first of the month and is not modelled). */
  datatype Month = Month(
    year: int,
    month: int,
    totalRainfall: real,
    maxHourly: real,
    capacityExceeded: bool,
    stormName: string,
    notableEvents: string)

  /** The storm months listed in `demoData`. */
  const DemoData: seq<Month> := [
    Month(1999, 1, 3.2, 0.6, false, "", "Normal winter"),
    Month(1999, 7, 5.2, 1.8, true, "", "Warmest July in history"),
    Month(2000, 8, 5.3, 1.4, false, "", "Wet August"),
    Month(2003, 9, 6.8, 1.6, false, "Hurricane Isabel", "Hurricane Isabel remnants"),
    Month(2004, 9, 5.7, 1.3, false, "Hurricane Frances", "Hurricane Frances impact"),
    Month(2005, 10, 16.73, 2.8, true, "", "Wettest October in history"),
    Month(2007, 4, 13.05, 2.1, true, "", "Wettest April on record"),
    Month(2010, 3, 10.69, 1.9, true, "", "Wettest March on record"),
    Month(2011, 8, 18.95, 3.6, true, "Hurricane Irene", "Wettest August in history"),
    Month(2012, 10, 4.8, 1.4, true, "Hurricane Sandy", "Hurricane Sandy month"),
    Month(2018, 8, 9.1, 2.0, true, "", "Extremely wet August"),
    Month(2020, 8, 9.6, 2.1, true, "Hurricane Isaias", "Extremely wet August"),
    Month(2021, 9, 7.13, 3.15, true, "Hurricane Ida", "Hurricane Ida - record hourly"),
    Month(2023, 9, 7.2, 2.5, true, "", "Severe flooding event")
  ]

  /** The normal rainfall of each month, January first. */
  const BaseRainfall: seq<real> := [2.1, 2.3, 4.1, 4.2, 4.5, 4.0, 4.8, 4.3, 3.9, 3.2, 3.8, 3.4]

  const FirstYear: int := 1999
  const LastYear: int := 2024
  const GridSize: nat := (LastYear - FirstYear + 1) * 12

  /** `demo.find(d => d.year === year && d.month === month)`: the first match. */
  function Find(demo: seq<Month>, year: int, month: int): (r: Option<Month>)
    ensures r.Some? ==> r.value in demo && r.value.year == year && r.value.month == month
    ensures r.None? ==> forall k :: 0 <= k < |demo| ==> !(demo[k].year == year && demo[k].month == month)
  {
    if demo == [] then None
    else if demo[0].year == year && demo[0].month == month then Some(demo[0])
    else Find(demo[1..], year, month)
  }

  /** `Math.max(0.5, x)`. */
  function AtLeastHalf(x: real): real
  {
    if x > 0.5 then x else 0.5
  }

  /** The month the loop generates when there is no demo record, from the two draws of `Math.random`. */
  function Generated(year: int, month: int, draw1: real, draw2: real): Month
    requires 1 <= month <= 12
  {
    Month(year, month, AtLeastHalf(BaseRainfall[month - 1] + (draw1 - 0.5) * 2.0), draw2 * 1.5 + 0.3, false, "", "Normal precipitation")
  }

  /** `find` returns a record that no earlier record shares its month with. */
  lemma {:induction false} FindFirst(demo: seq<Month>, k: nat)
    requires k < |demo|
    requires forall j :: 0 <= j < k ==> !(demo[j].year == demo[k].year && demo[j].month == demo[k].month)
    ensures Find(demo, demo[k].year, demo[k].month) == Some(demo[k])
  {
    if k > 0 {
      FindFirst(demo[1..], k - 1);
    }
  }

  /** The cell of the grid that holds a given year and month. */
  function CellOf(year: int, month: int): int
  {
    (year - FirstYear) * 12 + month - 1
  }

  /** Each demo record lies in the grid's range and is the one `find` returns for its month, as the records are listed month by month. */
  lemma DemoRecordsInRange()
    ensures forall k :: 0 <= k < |DemoData| ==>
      && FirstYear <= DemoData[k].year <= LastYear && 1 <= DemoData[k].month <= 12
      && Find(DemoData, DemoData[k].year, DemoData[k].month) == Some(DemoData[k])
  {
    forall k | 0 <= k < |DemoData|
      ensures FirstYear <= DemoData[k].year <= LastYear && 1 <= DemoData[k].month <= 12
      ensures forall j :: 0 <= j < k ==> CellOf(DemoData[j].year, DemoData[j].month) < CellOf(DemoData[k].year, DemoData[k].month)
    {
      assert k == 0 || k == 1 || k == 2 || k == 3 || k == 4 || k == 5 || k == 6 || k == 7 || k == 8 || k == 9 || k == 10 || k == 11 || k == 12 || k == 13;
    }
    forall k | 0 <= k < |DemoData|
      ensures Find(DemoData, DemoData[k].year, DemoData[k].month) == Some(DemoData[k])
    {
      FindFirst(DemoData, k);
    }
  }

  /** Cell `c` counts months from January 1999; a cell and its year and month determine each other. */
  lemma CellOfInverse(year: int, month: int)
    requires FirstYear <= year && 1 <= month <= 12
    ensures CellOf(year, month) >= 0
    ensures CellOf(year, month) / 12 == year - FirstYear && CellOf(year, month) % 12 == month - 1
  {
  }

  /**
   * What the grid holds at cell `c`: the record of `demo` for that month if
   * there is one, otherwise a normal month generated from two draws in
   * [0, 1), with the bounds those draws give.
   */
  ghost predicate GridEntry(demo: seq<Month>, c: nat, e: Month)
  {
    && e.year == FirstYear + c / 12 && e.month == c % 12 + 1
    && (Find(demo, e.year, e.month).Some? ==> e == Find(demo, e.year, e.month).value)
    && (Find(demo, e.year, e.month).None? ==>
          && (exists draw1, draw2 :: 0.0 <= draw1 < 1.0 && 0.0 <= draw2 < 1.0 && e == Generated(e.year, e.month, draw1, draw2))
          && e.totalRainfall >= 0.5 && 0.3 <= e.maxHourly < 1.8
          && !e.capacityExceeded && e.stormName == "" && e.notableEvents == "Normal precipitation")
  }

  /** A month with a demo record gets that record. */
  lemma DemoEntryFits(demo: seq<Month>, year: int, month: int)
    requires FirstYear <= year && 1 <= month <= 12 && Find(demo, year, month).Some?
    ensures GridEntry(demo, CellOf(year, month), Find(demo, year, month).value)
  {
    CellOfInverse(year, month);
  }

  /** A month without one gets a normal month drawn from two values in [0, 1). */
  lemma GeneratedEntryFits(demo: seq<Month>, year: int, month: int, draw1: real, draw2: real)
    requires FirstYear <= year && 1 <= month <= 12 && Find(demo, year, month).None?
    requires 0.0 <= draw1 < 1.0 && 0.0 <= draw2 < 1.0
    ensures GridEntry(demo, CellOf(year, month), Generated(year, month, draw1, draw2))
  {
    CellOfInverse(year, month);
  }

  /** Every demo record is in the grid, in its own month's cell. */
  lemma DemoRecordsInGrid(all: seq<Month>)
    requires |all| == GridSize && forall c :: 0 <= c < |all| ==> GridEntry(DemoData, c, all[c])
    ensures forall k :: 0 <= k < |DemoData| ==>
      0 <= CellOf(DemoData[k].year, DemoData[k].month) < |all| && all[CellOf(DemoData[k].year, DemoData[k].month)] == DemoData[k]
  {
    DemoRecordsInRange();
    RecordsInGrid(DemoData, all);
  }

  /** A grid that fits `demo` holds, in its own month's cell, every record of `demo` that lies in range and that `find` returns. */
  lemma RecordsInGrid(demo: seq<Month>, all: seq<Month>)
    requires |all| == GridSize && forall c :: 0 <= c < |all| ==> GridEntry(demo, c, all[c])
    requires forall k :: 0 <= k < |demo| ==>
      && FirstYear <= demo[k].year <= LastYear && 1 <= demo[k].month <= 12
      && Find(demo, demo[k].year, demo[k].month) == Some(demo[k])
    ensures forall k :: 0 <= k < |demo| ==>
      0 <= CellOf(demo[k].year, demo[k].month) < |all| && all[CellOf(demo[k].year, demo[k].month)] == demo[k]
  {
    forall k | 0 <= k < |demo|
      ensures 0 <= CellOf(demo[k].year, demo[k].month) < |all| && all[CellOf(demo[k].year, demo[k].month)] == demo[k]
    {
      var r := demo[k];
      var c := CellOf(r.year, r.month);
      CellInGrid(r.year, r.month);
      RecordInCell(demo, r, c, all[c]);
    }
  }

  /** A month of the grid's years has a cell inside the grid. */
  lemma CellInGrid(year: int, month: int)
    requires FirstYear <= year <= LastYear && 1 <= month <= 12
    ensures 0 <= CellOf(year, month) < GridSize
  {
    assert 0 <= year - FirstYear <= LastYear - FirstYear;
  }

  /** The entry of the cell of a record that `find` returns is that record. */
  lemma RecordInCell(demo: seq<Month>, r: Month, c: nat, e: Month)
    requires FirstYear <= r.year && 1 <= r.month <= 12 && Find(demo, r.year, r.month) == Some(r)
    requires c == CellOf(r.year, r.month) && GridEntry(demo, c, e)
    ensures e == r
  {
    CellOfInverse(r.year, r.month);
    assert e.year == r.year && e.month == r.month;
  }

  /** The months of one year, appended to the grid. */
  method FillYear(demo: seq<Month>, year: int, random: seq<real>, all: seq<Month>, used: nat) returns (all': seq<Month>, used': nat)
    requires FirstYear <= year && |all| == CellOf(year, 1) && used <= 2 * |all|
    requires |random| >= 2 * (|all| + 12)
    requires forall k :: 0 <= k < |random| ==> 0.0 <= random[k] < 1.0
    requires forall c :: 0 <= c < |all| ==> GridEntry(demo, c, all[c])
    ensures |all'| == CellOf(year + 1, 1) && used' <= 2 * |all'|
    ensures forall c :: 0 <= c < |all'| ==> GridEntry(demo, c, all'[c])
  {
    all', used' := all, used;
    for month := 1 to 13
      invariant |all'| == CellOf(year, month) && used' <= 2 * |all'|
      invariant forall c :: 0 <= c < |all'| ==> GridEntry(demo, c, all'[c])
    {
      var existing := Find(demo, year, month);
      var entry;
      if existing.Some? {
        DemoEntryFits(demo, year, month);
        entry := existing.value;
      } else {
        GeneratedEntryFits(demo, year, month, random[used'], random[used' + 1]);
        entry := Generated(year, month, random[used'], random[used' + 1]);
        used' := used' + 2;
      }
      all' := all' + [entry];
    }
  }

  /**
   * The nested loop over years and months of `createDemoRainfallChart`.
   * The grid has one entry per month from January 1999 to December 2024,
   * in order; a month with a demo record gets that record, every other
   * month gets a generated entry with at least 0.5 inches of rain; and
   * every demo record is in the grid, in its own month's cell.
   */
  method DemoGrid(random: seq<real>) returns (all: seq<Month>)
    requires |random| >= 2 * GridSize
    requires forall k :: 0 <= k < |random| ==> 0.0 <= random[k] < 1.0
    ensures |all| == GridSize
    ensures forall c :: 0 <= c < |all| ==> GridEntry(DemoData, c, all[c])
    ensures forall k :: 0 <= k < |DemoData| ==>
      0 <= CellOf(DemoData[k].year, DemoData[k].month) < |all| && all[CellOf(DemoData[k].year, DemoData[k].month)] == DemoData[k]
  {
    all := [];
    var used: nat := 0;
    for year := FirstYear to LastYear + 1
      invariant |all| == CellOf(year, 1) && used <= 2 * |all|
      invariant forall c :: 0 <= c < |all| ==> GridEntry(DemoData, c, all[c])
    {
      all, used := FillYear(DemoData, year, random, all, used);
    }
    DemoRecordsInGrid(all);
  }
}
