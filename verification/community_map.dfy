/**
 * The community-of-practice map: `parseCSVToGeoJSON` turns each typed CSV
 * row into a point feature, and the map's load handler joins every pair of
 * points with a line.
 *
 * `parseFloat` is a parameter (`None` for NaN), and so is the text a number
 * prints as under `toString`.
 */
module CommunityMap {
  import opened Wrappers
  import opened Text
  import opened Geo

  /** A coordinate after `parseFloat`: a number, NaN, or `undefined` when the "lat,lng" text has no such part. */
  datatype Coord = Num(x: real) | NaN | Missing

  /** A point feature: its `[lng, lat]` coordinates and the five properties it copies from the row. */
  datatype Place = Place(
    lng: Coord,
    lat: Coord,
    projectName: Value,
    artistInstitution: Value,
    locationCity: Value,
    fieldCategory: Value,
    link: Value)

  /** The TypeError of `cleanedRow['lat-long'].toString()` when the cell is undefined or null; it aborts the whole `map`. */
  datatype ParseError = NoLatLong(row: nat)

  /** `v.toString()`: `None` where it throws. */
  function ToText(v: Value, numberText: real -> string): Option<string>
  {
    match v
    case Undefined => None
    case Null => None
    case Bool(b) => Some(if b then "true" else "false")
    case Number(x) => Some(numberText(x))
    case Text(s) => Some(s)
  }

  /** `parseFloat(coord.trim())` for part `k` of the split text, or `undefined` past its end. */
  function CoordAt(parts: seq<string>, k: nat, parseFloat: string -> Option<real>): Coord
  {
    if k < |parts| then
      match parseFloat(Trim(parts[k]))
      case Some(x) => Num(x)
      case None => NaN
    else Missing
  }

  /** The callback of `parsed.data.map(row => ...)`. */
  function PlaceOf(row: Row, r: nat, parseFloat: string -> Option<real>, numberText: real -> string): Result<Place, ParseError>
  {
    var cleaned := CleanRow(row);
    match ToText(Get(cleaned, "lat-long"), numberText)
    case None => Err(NoLatLong(r))
    case Some(text) =>
      var parts := SplitOn(Trim(text), ',');
      Ok(Place(CoordAt(parts, 1, parseFloat), CoordAt(parts, 0, parseFloat),
               Get(cleaned, "project-name"), Get(cleaned, "artist-institution"), Get(cleaned, "location-city"),
               Get(cleaned, "field-category"), Get(cleaned, "link")))
  }

  /** The results of a callback run over a list in order, as `map` returns them: every value, or the first exception. */
  function Collect<T, E>(results: seq<Result<T, E>>): Result<seq<T>, E>
  {
    if results == [] then Ok([])
    else
      match results[0]
      case Err(e) => Err(e)
      case Ok(v) =>
        match Collect(results[1..])
        case Err(e) => Err(e)
        case Ok(vs) => Ok([v] + vs)
  }

  /** `map` succeeds exactly when every call does, and then returns their values in order. */
  lemma {:induction false} CollectOk<T, E>(results: seq<Result<T, E>>)
    ensures Collect(results).Ok? <==> forall i :: 0 <= i < |results| ==> results[i].Ok?
    ensures Collect(results).Ok? ==>
      |Collect(results).value| == |results| && forall i :: 0 <= i < |results| ==> Collect(results).value[i] == results[i].value
  {
    if results != [] {
      CollectOk(results[1..]);
      assert forall i :: 1 <= i < |results| ==> results[1..][i - 1] == results[i];
    }
  }

  /** When a call throws, `map` throws the first exception. */
  lemma {:induction false} CollectErr<T, E>(results: seq<Result<T, E>>)
    requires Collect(results).Err?
    ensures exists i :: 0 <= i < |results| && results[i] == Err(Collect(results).error) && forall j :: 0 <= j < i ==> results[j].Ok?
  {
    if results[0].Ok? {
      CollectErr(results[1..]);
      var i :| 0 <= i < |results[1..]| && results[1..][i] == Err(Collect(results[1..]).error)
        && forall j :: 0 <= j < i ==> results[1..][j].Ok?;
      assert results[i + 1] == Err(Collect(results).error);
      forall j | 0 <= j < i + 1
        ensures results[j].Ok?
      {
        if j > 0 {
          assert results[1..][j - 1] == results[j];
        }
      }
    } else {
      assert results[0] == Err(Collect(results).error);
    }
  }

  /** The callback's result for every row, in row order. */
  function RowResults(rows: seq<Row>, parseFloat: string -> Option<real>, numberText: real -> string): (rs: seq<Result<Place, ParseError>>)
    ensures |rs| == |rows|
    ensures forall i :: 0 <= i < |rows| ==> rs[i] == PlaceOf(rows[i], i, parseFloat, numberText)
  {
    seq(|rows|, i requires 0 <= i < |rows| => PlaceOf(rows[i], i, parseFloat, numberText))
  }

  /** `parseCSVToGeoJSON(csv).features`: the callback over every row, the first row that throws aborting it. */
  function Places(rows: seq<Row>, parseFloat: string -> Option<real>, numberText: real -> string): Result<seq<Place>, ParseError>
  {
    Collect(RowResults(rows, parseFloat, numberText))
  }

  /** One feature per row, in row order, exactly when no row throws. */
  lemma PlacesOk(rows: seq<Row>, parseFloat: string -> Option<real>, numberText: real -> string)
    ensures Places(rows, parseFloat, numberText).Ok? <==> forall i :: 0 <= i < |rows| ==> PlaceOf(rows[i], i, parseFloat, numberText).Ok?
    ensures Places(rows, parseFloat, numberText).Ok? ==>
      && |Places(rows, parseFloat, numberText).value| == |rows|
      && forall i :: 0 <= i < |rows| ==> Places(rows, parseFloat, numberText).value[i] == PlaceOf(rows[i], i, parseFloat, numberText).value
  {
    CollectOk(RowResults(rows, parseFloat, numberText));
  }

  /** Otherwise the error names the first row whose "lat-long" cell is missing or null. */
  lemma PlacesErr(rows: seq<Row>, parseFloat: string -> Option<real>, numberText: real -> string)
    requires Places(rows, parseFloat, numberText).Err?
    ensures exists i ::
      && 0 <= i < |rows| && Places(rows, parseFloat, numberText).error == NoLatLong(i)
      && PlaceOf(rows[i], i, parseFloat, numberText).Err?
      && forall j :: 0 <= j < i ==> PlaceOf(rows[j], j, parseFloat, numberText).Ok?
  {
    var results := RowResults(rows, parseFloat, numberText);
    CollectErr(results);
    var i :| 0 <= i < |results| && results[i] == Err(Collect(results).error) && forall j :: 0 <= j < i ==> results[j].Ok?;
    assert results[i] == PlaceOf(rows[i], i, parseFloat, numberText);
  }

  /**
   * For a "lat-long" cell with one comma, which reads "lat,lng" once the
   * white space around the whole cell is trimmed (white space around each
   * number is trimmed again when it is parsed), the feature's coordinates
   * are `[lng, lat]`: the second number first; and the five properties are
   * the row's cells under those names, whatever white space surrounded the
   * header.
   */
  lemma LatLongOrder(row: Row, r: nat, parseFloat: string -> Option<real>, numberText: real -> string, cell: string, lat: string, lng: string)
    requires Get(CleanRow(row), "lat-long") == Text(cell)
    requires Trim(cell) == lat + "," + lng && ',' !in lat && ',' !in lng
    ensures PlaceOf(row, r, parseFloat, numberText).Ok?
    ensures var p := PlaceOf(row, r, parseFloat, numberText).value;
      && p.lat == CoordAt([lat], 0, parseFloat)
      && p.lng == CoordAt([lng], 0, parseFloat)
      && p.projectName == Get(CleanRow(row), "project-name")
      && p.artistInstitution == Get(CleanRow(row), "artist-institution")
      && p.locationCity == Get(CleanRow(row), "location-city")
      && p.fieldCategory == Get(CleanRow(row), "field-category")
      && p.link == Get(CleanRow(row), "link")
  {
    var text := lat + "," + lng;
    assert text == lat + [','] + lng;
    SplitAround(lat, ',', lng);
    SplitWhole(lat, ',');
    SplitWhole(lng, ',');
    var parts := SplitOn(Trim(cell), ',');
    assert parts == [lat, lng];
    assert ToText(Get(CleanRow(row), "lat-long"), numberText) == Some(cell);
    assert CoordAt(parts, 0, parseFloat) == CoordAt([lat], 0, parseFloat);
    assert CoordAt(parts, 1, parseFloat) == CoordAt([lng], 0, parseFloat);
  }

  /** A line feature of the pair loop. */
  datatype Line = Line(
    start: (Coord, Coord),
    end: (Coord, Coord),
    startCategory: Value,
    endCategory: Value,
    startProject: Value,
    endProject: Value)

  /** The line from `p` to `q`: coordinates `[p, q]`, `start-*` properties from `p`, `end-*` from `q`. */
  function LineOf(p: Place, q: Place): Line
  {
    Line((p.lng, p.lat), (q.lng, q.lat), p.fieldCategory, q.fieldCategory, p.projectName, q.projectName)
  }

  /** The pairs `(i, j)` the inner loop visits for a given `i`: every `j` after `i`. */
  function RowPairs(i: nat, n: nat): (pairs: seq<(nat, nat)>)
    ensures |pairs| == if i < n then n - i - 1 else 0
    ensures forall k :: 0 <= k < |pairs| ==> pairs[k] == (i, i + 1 + k)
  {
    if i < n then seq(n - i - 1, k requires 0 <= k < n - i - 1 => (i, i + 1 + k)) else []
  }

  /** The pairs visited before the outer loop reaches `i`. */
  function PairsBefore(i: nat, n: nat): seq<(nat, nat)>
  {
    if i == 0 then [] else PairsBefore(i - 1, n) + RowPairs(i - 1, n)
  }

  /** Every pair the loops visit, in order. */
  function AllPairs(n: nat): seq<(nat, nat)>
  {
    PairsBefore(n, n)
  }

  predicate PairsIn(pairs: seq<(nat, nat)>, n: nat)
  {
    forall k :: 0 <= k < |pairs| ==> pairs[k].0 < n && pairs[k].1 < n
  }

  /** The lines of the given pairs of points. */
  function LinesFor(points: seq<Place>, pairs: seq<(nat, nat)>): (lines: seq<Line>)
    requires PairsIn(pairs, |points|)
    ensures |lines| == |pairs|
  {
    seq(|pairs|, k requires 0 <= k < |pairs| => LineOf(points[pairs[k].0], points[pairs[k].1]))
  }

  /** (a, b) comes before (c, d): by first index, then by second. */
  predicate PairBefore(p: (nat, nat), q: (nat, nat))
  {
    p.0 < q.0 || (p.0 == q.0 && p.1 < q.1)
  }

  /** The inner loop for `i` visits `p` exactly when `p` is `(i, j)` with `i < j < n`. */
  lemma RowPairMember(i: nat, n: nat, p: (nat, nat))
    ensures p in RowPairs(i, n) <==> p.0 == i && i < p.1 < n
  {
    if p.0 == i && i < p.1 < n {
      assert RowPairs(i, n)[p.1 - i - 1] == p;
    }
  }

  /** The loops visit `p` before row `i` exactly when `p` is `(a, b)` with `a < b < n` and `a < i`. */
  lemma {:induction false} PairMember(i: nat, n: nat, p: (nat, nat))
    requires i <= n
    ensures p in PairsBefore(i, n) <==> p.0 < i && p.0 < p.1 < n
  {
    if i > 0 {
      PairMember(i - 1, n, p);
      RowPairMember(i - 1, n, p);
      assert PairsBefore(i, n) == PairsBefore(i - 1, n) + RowPairs(i - 1, n);
    }
  }

  /** The pairs before row `i` are exactly the pairs `a < b < n` with `a < i`. */
  lemma PairsBeforeMembers(i: nat, n: nat)
    requires i <= n
    ensures forall p :: p in PairsBefore(i, n) <==> p.0 < i && p.0 < p.1 < n
  {
    forall p: (nat, nat) {
      PairMember(i, n, p);
    }
  }

  /** Two ordered runs of pairs, every pair of the first before every pair of the second, make one ordered run. */
  lemma OrderedConcat(a: seq<(nat, nat)>, b: seq<(nat, nat)>)
    requires forall x, y :: 0 <= x < y < |a| ==> PairBefore(a[x], a[y])
    requires forall x, y :: 0 <= x < y < |b| ==> PairBefore(b[x], b[y])
    requires forall p, q :: p in a && q in b ==> PairBefore(p, q)
    ensures forall x, y :: 0 <= x < y < |a + b| ==> PairBefore((a + b)[x], (a + b)[y])
  {
    forall x, y | 0 <= x < y < |a + b|
      ensures PairBefore((a + b)[x], (a + b)[y])
    {
      if y < |a| {
        assert (a + b)[x] == a[x] && (a + b)[y] == a[y];
      } else if x < |a| {
        assert (a + b)[x] == a[x] && (a + b)[y] == b[y - |a|];
        assert a[x] in a && b[y - |a|] in b;
      } else {
        assert (a + b)[x] == b[x - |a|] && (a + b)[y] == b[y - |a|];
      }
    }
  }

  /** They are strictly ordered by first index and then second, so none repeats. */
  lemma {:induction false} PairsBeforeOrdered(i: nat, n: nat)
    requires i <= n
    ensures forall x, y :: 0 <= x < y < |PairsBefore(i, n)| ==> PairBefore(PairsBefore(i, n)[x], PairsBefore(i, n)[y])
  {
    if i > 0 {
      var a := PairsBefore(i - 1, n);
      var b := RowPairs(i - 1, n);
      PairsBeforeOrdered(i - 1, n);
      forall p, q | p in a && q in b
        ensures PairBefore(p, q)
      {
        PairMember(i - 1, n, p);
        RowPairMember(i - 1, n, q);
      }
      assert PairsBefore(i, n) == a + b;
      OrderedConcat(a, b);
    }
  }

  /** There are i(2n - i - 1)/2 of them. */
  lemma {:induction false} PairsBeforeCount(i: nat, n: nat)
    requires i <= n
    ensures 2 * |PairsBefore(i, n)| == i * (2 * n - i - 1)
  {
    if i > 0 {
      PairsBeforeCount(i - 1, n);
      assert |PairsBefore(i, n)| == |PairsBefore(i - 1, n)| + (n - i);
      assert i * (2 * n - i - 1) == (i - 1) * (2 * n - (i - 1) - 1) + 2 * (n - i);
    }
  }

  /** For n points the loops yield n(n - 1)/2 lines: one per pair i < j, ordered by i and then j, with no pair from a point to itself. */
  lemma AllPairsMeaning(n: nat)
    ensures forall p :: p in AllPairs(n) <==> p.0 < p.1 < n
    ensures forall x, y :: 0 <= x < y < |AllPairs(n)| ==> PairBefore(AllPairs(n)[x], AllPairs(n)[y])
    ensures 2 * |AllPairs(n)| == n * (n - 1)
  {
    PairsBeforeMembers(n, n);
    PairsBeforeOrdered(n, n);
    PairsBeforeCount(n, n);
  }

  lemma PairsBeforeIn(i: nat, n: nat)
    requires i <= n
    ensures PairsIn(PairsBefore(i, n), n)
  {
    PairsBeforeMembers(i, n);
    forall k | 0 <= k < |PairsBefore(i, n)|
      ensures PairsBefore(i, n)[k].0 < n && PairsBefore(i, n)[k].1 < n
    {
      assert PairsBefore(i, n)[k] in PairsBefore(i, n);
    }
  }

  lemma LinesForSnoc(points: seq<Place>, pairs: seq<(nat, nat)>, p: (nat, nat))
    requires PairsIn(pairs + [p], |points|) && p.0 < |points| && p.1 < |points|
    ensures PairsIn(pairs, |points|)
    ensures LinesFor(points, pairs + [p]) == LinesFor(points, pairs) + [LineOf(points[p.0], points[p.1])]
  {
    assert forall k :: 0 <= k < |pairs| ==> pairs[k] == (pairs + [p])[k];
  }

  /** The inner loop for point `i`. */
  method ConnectFrom(points: seq<Place>, i: nat, lines: seq<Line>) returns (lines': seq<Line>)
    requires i < |points| && PairsIn(PairsBefore(i, |points|), |points|)
    requires lines == LinesFor(points, PairsBefore(i, |points|))
    ensures PairsIn(PairsBefore(i + 1, |points|), |points|)
    ensures lines' == LinesFor(points, PairsBefore(i + 1, |points|))
  {
    var n := |points|;
    ghost var before := PairsBefore(i, n);
    ghost var row := RowPairs(i, n);
    lines' := lines;
    assert before + row[..0] == before;
    for j := i + 1 to n
      invariant PairsIn(before + row[..j - i - 1], n)
      invariant lines' == LinesFor(points, before + row[..j - i - 1])
    {
      assert before + row[..j - i] == before + row[..j - i - 1] + [(i, j)];
      LinesForSnoc(points, before + row[..j - i - 1], (i, j));
      lines' := lines' + [LineOf(points[i], points[j])];
    }
    assert row[..n - i - 1] == row;
  }

  /**
   * The nested `i`/`j` loop that fills `lineFeatures`: one line per pair of
   * points `i < j`, in the order of `AllPairs`.
   */
  method ConnectAll(points: seq<Place>) returns (lines: seq<Line>)
    ensures PairsIn(AllPairs(|points|), |points|)
    ensures lines == LinesFor(points, AllPairs(|points|))
  {
    var n := |points|;
    lines := [];
    for i := 0 to n
      invariant PairsIn(PairsBefore(i, n), n)
      invariant lines == LinesFor(points, PairsBefore(i, n))
    {
      lines := ConnectFrom(points, i, lines);
    }
  }
}
