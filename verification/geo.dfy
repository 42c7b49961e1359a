/**
 * What the two map scripts share: the cells of a parsed CSV row, the
 * header clean-up they both apply, JavaScript truthiness, and the popup's
 * longitude-wrap loop.
 *
 * A row comes from Papa Parse with `header: true` and `dynamicTyping: true`;
 * its cells are numbers, booleans, text or null, and a key the row lacks
 * reads as `undefined`. The parsing itself is not modelled: rows are taken
 * as already typed, in column order.
 */
module Geo {
  import opened Wrappers
  import opened Text

  /** A cell of a typed row, or `undefined` for a key the row does not have. */
  datatype Value = Undefined | Null | Bool(b: bool) | Number(x: real) | Text(s: string)

  /** A parsed row: its keys and cells in column order. */
  type Row = seq<(string, Value)>

  /** JavaScript truthiness: `undefined`, `null`, `false`, `0` and `''` are falsy (Papa yields no NaN cells). */
  predicate Truthy(v: Value)
  {
    match v
    case Undefined => false
    case Null => false
    case Bool(b) => b
    case Number(x) => x != 0.0
    case Text(s) => s != ""
  }

  /** `cleanedRow[key.trim()] = row[key]` for every key in order: a later key that trims to the same text wins. */
  function CleanRow(row: Row): map<string, Value>
  {
    AssignTrimmed(row)
  }

  /** `cleanedRow[key]`: `undefined` when absent. */
  function Get(cleaned: map<string, Value>, key: string): Value
  {
    if key in cleaned then cleaned[key] else Undefined
  }


  /** The `Object.keys(row).forEach(...)` loop that builds the cleaned row. */
  method CleanKeys(row: Row) returns (cleaned: map<string, Value>)
    ensures cleaned == CleanRow(row)
  {
    cleaned := map[];
    for k := 0 to |row|
      invariant cleaned == CleanRow(row[..k])
    {
      assert row[..k + 1][..k] == row[..k];
      cleaned := cleaned[Trim(row[k].0) := row[k].1];
    }
    assert row[..|row|] == row;
  }

  /** `parseFloat(v)`: text goes through the given parser (`None` for NaN); a number is itself; anything else reads as its text. */
  function ParseNumber(v: Value, parseFloat: string -> Option<real>): Option<real>
  {
    match v
    case Number(x) => Some(x)
    case Text(s) => parseFloat(s)
    case Bool(b) => parseFloat(if b then "true" else "false")
    case Null => parseFloat("null")
    case Undefined => parseFloat("undefined")
  }

  /** `from` moved by a whole number of turns. */
  function Turned(from: real, turns: int): real
  {
    from + 360.0 * turns as real
  }

  function Abs(x: real): real
  {
    if x < 0.0 then -x else x
  }

  /**
   * The popup's `while (Math.abs(e.lngLat.lng - coordinates[0]) > 180)` loop:
   * it moves the longitude by whole turns of 360 degrees toward the clicked
   * longitude until the two are at most 180 apart, and leaves every other
   * coordinate alone.
   */
  method WrapLongitude(clickLng: real, coordinates: array<real>)
    requires coordinates.Length >= 1
    modifies coordinates
    ensures Abs(clickLng - coordinates[0]) <= 180.0
    ensures exists turns: int ::
      && coordinates[0] == Turned(old(coordinates[0]), turns)
      && (clickLng >= old(coordinates[0]) ==> turns >= 0)
      && (clickLng <= old(coordinates[0]) ==> turns <= 0)
    ensures Abs(clickLng - old(coordinates[0])) <= 180.0 ==> coordinates[0] == old(coordinates[0])
    ensures forall i :: 1 <= i < coordinates.Length ==> coordinates[i] == old(coordinates[i])
  {
    ghost var turns: int := 0;
    while Abs(clickLng - coordinates[0]) > 180.0
      invariant coordinates[0] == Turned(old(coordinates[0]), turns)
      invariant Abs(clickLng - old(coordinates[0])) <= 180.0 ==> turns == 0
      invariant clickLng >= old(coordinates[0]) ==> turns >= 0 && (turns > 0 ==> clickLng > coordinates[0] - 360.0)
      invariant clickLng <= old(coordinates[0]) ==> turns <= 0 && (turns < 0 ==> clickLng < coordinates[0] + 360.0)
      invariant forall i :: 1 <= i < coordinates.Length ==> coordinates[i] == old(coordinates[i])
      decreases Abs(clickLng - coordinates[0]).Floor
    {
      if clickLng > coordinates[0] {
        coordinates[0] := coordinates[0] + 360.0;
        turns := turns + 1;
      } else {
        coordinates[0] := coordinates[0] - 360.0;
        turns := turns - 1;
      }
    }
  }

  /**
   * The click handler's `coordinates.slice()` followed by the wrap loop: the
   * popup gets a fresh copy, so the feature's own coordinates are untouched;
   * its latitude is the feature's, its longitude is within 180 degrees of
   * the click.
   */
  method PopupCoordinates(clickLng: real, feature: array<real>) returns (coordinates: array<real>)
    requires feature.Length >= 1
    ensures fresh(coordinates)
    ensures coordinates.Length == feature.Length && coordinates[1..] == feature[1..]
    ensures Abs(clickLng - coordinates[0]) <= 180.0
    ensures exists turns: int :: coordinates[0] == Turned(feature[0], turns)
  {
    coordinates := new real[feature.Length](i requires 0 <= i < feature.Length reads feature => feature[i]);
    WrapLongitude(clickLng, coordinates);
  }
}
