/**
 * The mycorrhizal network map: `parseMyceliumCSVToGeoJSON` turns each typed
 * CSV row into up to three point features (the plant, the fungus and the
 * soil sample), `createMyceliumConnections` joins some later points to each
 * point with typed connections, and `updateStats` counts the points by kind.
 *
 * `parseFloat` is a parameter (`None` for NaN). The distance test and the
 * random draws that decide whether a candidate pair is joined are folded
 * into one parameter, `accept`.
 */
module Mycelium {
  import opened Wrappers
  import opened Text
  import opened Geo

  /** The `location-type` of a point. */
  datatype Kind = Plant | Fungal | Soil

  /** The position of a kind in the `locations` array of a row. */
  function Rank(k: Kind): nat
  {
    match k
    case Plant => 0
    case Fungal => 1
    case Soil => 2
  }

  /** An entry of the `locations` array: the kind and the raw latitude and longitude cells. */
  datatype Location = Location(kind: Kind, lat: Value, lng: Value)

  /** The `locations` array of a cleaned row: plant, fungal and soil, in that order. */
  function Locations(cleaned: map<string, Value>): (locs: seq<Location>)
    ensures |locs| == 3 && Ranked(locs)
  {
    [ Location(Plant, Get(cleaned, "Plant_Lat"), Get(cleaned, "Plant_Long")),
      Location(Fungal, Get(cleaned, "Fung_Lat"), Get(cleaned, "Fung_Long")),
      Location(Soil, Get(cleaned, "Soil_Lat"), Get(cleaned, "Soil_Long")) ]
  }

  /** Each location sits at the index of its kind. */
  predicate Ranked(locs: seq<Location>)
  {
    forall i :: 0 <= i < |locs| ==> Rank(locs[i].kind) == i
  }

  /** The seven descriptive properties every point feature carries. */
  datatype Properties = Properties(
    plantSpecies: Value,
    fungalGenus: Value,
    plantFamily: Value,
    plantLifeHistory: Value,
    fungalGroup: Value,
    location: Value,
    domesticated: Value)

  /** `v || 'Unknown'`: a falsy cell is replaced by the text "Unknown". */
  function OrUnknown(v: Value): (r: Value)
    ensures Truthy(r)
    ensures Truthy(v) ==> r == v
    ensures r != v ==> r == Text("Unknown")
  {
    if Truthy(v) then v else Text("Unknown")
  }

  /** No property of a feature is falsy. */
  predicate Described(p: Properties)
  {
    && Truthy(p.plantSpecies) && Truthy(p.fungalGenus) && Truthy(p.plantFamily)
    && Truthy(p.plantLifeHistory) && Truthy(p.fungalGroup) && Truthy(p.location) && Truthy(p.domesticated)
  }

  /** The `properties` object of a feature, apart from its `location-type`. */
  function PropertiesOf(cleaned: map<string, Value>): (p: Properties)
    ensures Described(p)
  {
    Properties(
      OrUnknown(Get(cleaned, "PlantSpecies")),
      OrUnknown(Get(cleaned, "FungalGenus")),
      OrUnknown(Get(cleaned, "PlantFamily")),
      OrUnknown(Get(cleaned, "PLANTLIFEHISTORY")),
      OrUnknown(Get(cleaned, "FUNGROUP")),
      OrUnknown(Get(cleaned, "LOCATION")),
      OrUnknown(Get(cleaned, "DOMESTICATED")))
  }

  /** A point feature: coordinates `[lng, lat]`, its kind and its properties. */
  datatype Site = Site(lng: real, lat: real, kind: Kind, properties: Properties)

  /** A latitude and longitude that lie on the globe. */
  predicate InRange(lat: real, lng: real)
  {
    -90.0 <= lat <= 90.0 && -180.0 <= lng <= 180.0
  }

  /** The point feature a location yields, or `None` where the callback returns early. */
  function SiteOf(cleaned: map<string, Value>, loc: Location, parseFloat: string -> Option<real>): (s: Option<Site>)
    ensures s.Some? ==> InRange(s.value.lat, s.value.lng) && s.value.kind == loc.kind && Described(s.value.properties)
  {
    if !Truthy(loc.lat) || !Truthy(loc.lng) || loc.lat == Text("") || loc.lng == Text("") then None
    else
      match (ParseNumber(loc.lat, parseFloat), ParseNumber(loc.lng, parseFloat))
      case (Some(lat), Some(lng)) =>
        if lat < -90.0 || lat > 90.0 || lng < -180.0 || lng > 180.0 then None
        else Some(Site(lng, lat, loc.kind, PropertiesOf(cleaned)))
      case _ => None
  }

  /**
   * A location yields a feature exactly when both cells are truthy (so a
   * coordinate of exactly 0 is dropped), both parse as numbers, and the
   * numbers lie on the globe; the feature then holds those numbers, longitude
   * first. The test for `''` never decides anything, since `''` is falsy.
   */
  lemma SkipRule(cleaned: map<string, Value>, loc: Location, parseFloat: string -> Option<real>)
    ensures SiteOf(cleaned, loc, parseFloat).Some? <==>
      && Truthy(loc.lat) && Truthy(loc.lng)
      && ParseNumber(loc.lat, parseFloat).Some? && ParseNumber(loc.lng, parseFloat).Some?
      && InRange(ParseNumber(loc.lat, parseFloat).value, ParseNumber(loc.lng, parseFloat).value)
    ensures SiteOf(cleaned, loc, parseFloat).Some? ==>
      && SiteOf(cleaned, loc, parseFloat).value.lat == ParseNumber(loc.lat, parseFloat).value
      && SiteOf(cleaned, loc, parseFloat).value.lng == ParseNumber(loc.lng, parseFloat).value
    ensures loc.lat == Number(0.0) || loc.lng == Number(0.0) ==> SiteOf(cleaned, loc, parseFloat).None?
  {
  }

  /** The features the `locations.forEach` callback pushes, in order. */
  function SitesOf(cleaned: map<string, Value>, locs: seq<Location>, parseFloat: string -> Option<real>): (sites: seq<Site>)
    ensures |sites| <= |locs|
  {
    if locs == [] then []
    else
      var rest := SitesOf(cleaned, locs[..|locs| - 1], parseFloat);
      match SiteOf(cleaned, locs[|locs| - 1], parseFloat)
      case None => rest
      case Some(s) => rest + [s]
  }

  /** The features of one row. */
  function RowSites(row: Row, parseFloat: string -> Option<real>): seq<Site>
  {
    SitesOf(CleanRow(row), Locations(CleanRow(row)), parseFloat)
  }

  /** `parseMyceliumCSVToGeoJSON(csv).features`: the features of every row, row after row. */
  function Features(rows: seq<Row>, parseFloat: string -> Option<real>): seq<Site>
  {
    if rows == [] then [] else Features(rows[..|rows| - 1], parseFloat) + RowSites(rows[|rows| - 1], parseFloat)
  }

  /** Kinds strictly in the order plant, fungal, soil. */
  predicate KindsAscend(sites: seq<Site>)
  {
    forall x, y :: 0 <= x < y < |sites| ==> Rank(sites[x].kind) < Rank(sites[y].kind)
  }

  /** Each feature comes from the location of its own kind. */
  lemma {:induction false} SitesOfOrigin(cleaned: map<string, Value>, locs: seq<Location>, parseFloat: string -> Option<real>)
    requires Ranked(locs)
    ensures forall s :: s in SitesOf(cleaned, locs, parseFloat) ==>
      Rank(s.kind) < |locs| && SiteOf(cleaned, locs[Rank(s.kind)], parseFloat) == Some(s)
  {
    if locs != [] {
      var init := locs[..|locs| - 1];
      assert Ranked(init) by {
        forall i | 0 <= i < |init|
          ensures Rank(init[i].kind) == i
        {
          assert init[i] == locs[i];
        }
      }
      SitesOfOrigin(cleaned, init, parseFloat);
      forall s | s in SitesOf(cleaned, init, parseFloat)
        ensures locs[Rank(s.kind)] == init[Rank(s.kind)]
      {
      }
    }
  }

  /** Every location that yields a feature contributes it. */
  lemma {:induction false} SitesOfCover(cleaned: map<string, Value>, locs: seq<Location>, parseFloat: string -> Option<real>)
    ensures forall i :: 0 <= i < |locs| && SiteOf(cleaned, locs[i], parseFloat).Some? ==>
      SiteOf(cleaned, locs[i], parseFloat).value in SitesOf(cleaned, locs, parseFloat)
  {
    if locs != [] {
      var init := locs[..|locs| - 1];
      SitesOfCover(cleaned, init, parseFloat);
      forall i | 0 <= i < |init|
        ensures init[i] == locs[i]
      {
      }
    }
  }

  /** Over ranked locations the features' kinds ascend. */
  lemma {:induction false} SitesOfAscend(cleaned: map<string, Value>, locs: seq<Location>, parseFloat: string -> Option<real>)
    requires Ranked(locs)
    ensures KindsAscend(SitesOf(cleaned, locs, parseFloat))
  {
    if locs != [] {
      var init := locs[..|locs| - 1];
      assert Ranked(init) by {
        forall i | 0 <= i < |init|
          ensures Rank(init[i].kind) == i
        {
          assert init[i] == locs[i];
        }
      }
      SitesOfAscend(cleaned, init, parseFloat);
      SitesOfOrigin(cleaned, init, parseFloat);
      var rest := SitesOf(cleaned, init, parseFloat);
      var sites := SitesOf(cleaned, locs, parseFloat);
      if sites != rest {
        forall x, y | 0 <= x < y < |sites|
          ensures Rank(sites[x].kind) < Rank(sites[y].kind)
        {
          assert sites[x] == rest[x] && sites[x] in rest;
          if y == |rest| {
            assert sites[y].kind == locs[|locs| - 1].kind;
          } else {
            assert sites[y] == rest[y];
          }
        }
      }
    }
  }

  /**
   * Each row gives at most 3 features, in the order plant, fungal, soil; the
   * feature of a kind is there exactly when that location yields one.
   */
  lemma RowSitesMeaning(row: Row, parseFloat: string -> Option<real>)
    ensures |RowSites(row, parseFloat)| <= 3
    ensures KindsAscend(RowSites(row, parseFloat))
    ensures forall i :: 0 <= i < 3 ==>
      (SiteOf(CleanRow(row), Locations(CleanRow(row))[i], parseFloat).Some? <==>
       exists s :: s in RowSites(row, parseFloat) && Rank(s.kind) == i)
  {
    var cleaned := CleanRow(row);
    var locs := Locations(cleaned);
    SitesOfAscend(cleaned, locs, parseFloat);
    SitesOfOrigin(cleaned, locs, parseFloat);
    SitesOfCover(cleaned, locs, parseFloat);
    forall i | 0 <= i < 3 && SiteOf(cleaned, locs[i], parseFloat).Some?
      ensures exists s :: s in RowSites(row, parseFloat) && Rank(s.kind) == i
    {
      var s := SiteOf(cleaned, locs[i], parseFloat).value;
      assert s in RowSites(row, parseFloat) && Rank(s.kind) == i;
    }
  }

  /** Every feature of the collection lies on the globe and has no falsy property. */
  lemma {:induction false} FeaturesValid(rows: seq<Row>, parseFloat: string -> Option<real>)
    ensures |Features(rows, parseFloat)| <= 3 * |rows|
    ensures forall s :: s in Features(rows, parseFloat) ==> InRange(s.lat, s.lng) && Described(s.properties)
  {
    if rows != [] {
      FeaturesValid(rows[..|rows| - 1], parseFloat);
      var row := rows[|rows| - 1];
      SitesOfOrigin(CleanRow(row), Locations(CleanRow(row)), parseFloat);
    }
  }

  /** The `locations.forEach` loop of one row: it pushes the row's features onto `features`. */
  method PushLocations(cleaned: map<string, Value>, parseFloat: string -> Option<real>, features: seq<Site>) returns (features': seq<Site>)
    ensures features' == features + SitesOf(cleaned, Locations(cleaned), parseFloat)
  {
    var locations := Locations(cleaned);
    features' := features;
    for k := 0 to 3
      invariant features' == features + SitesOf(cleaned, locations[..k], parseFloat)
    {
      assert locations[..k + 1][..k] == locations[..k];
      var location := locations[k];
      if Truthy(location.lat) && Truthy(location.lng) && location.lat != Text("") && location.lng != Text("") {
        var lat := ParseNumber(location.lat, parseFloat);
        var lng := ParseNumber(location.lng, parseFloat);
        if lat.Some? && lng.Some? {
          if !(lat.value < -90.0 || lat.value > 90.0 || lng.value < -180.0 || lng.value > 180.0) {
            features' := features' + [Site(lng.value, lat.value, location.kind, PropertiesOf(cleaned))];
          }
        }
      }
    }
    assert locations[..3] == locations;
  }

  /** The `parsed.data.forEach` loop of `parseMyceliumCSVToGeoJSON`. */
  method ParseMycelium(rows: seq<Row>, parseFloat: string -> Option<real>) returns (features: seq<Site>)
    ensures features == Features(rows, parseFloat)
  {
    features := [];
    for r := 0 to |rows|
      invariant features == Features(rows[..r], parseFloat)
    {
      assert rows[..r + 1][..r] == rows[..r];
      var cleaned := CleanKeys(rows[r]);
      features := PushLocations(cleaned, parseFloat, features);
    }
    assert rows[..|rows|] == rows;
  }

  /** The number of features of kind `k`: `features.filter(f => f.properties['location-type'] === k).length`. */
  function CountKind(sites: seq<Site>, k: Kind): nat
  {
    if sites == [] then 0
    else CountKind(sites[..|sites| - 1], k) + (if sites[|sites| - 1].kind == k then 1 else 0)
  }

  lemma {:induction false} CountKindAppend(a: seq<Site>, b: seq<Site>, k: Kind)
    ensures CountKind(a + b, k) == CountKind(a, k) + CountKind(b, k)
    decreases |b|
  {
    if b != [] {
      assert (a + b)[..|a + b| - 1] == a + b[..|b| - 1];
      assert (a + b)[|a + b| - 1] == b[|b| - 1];
      CountKindAppend(a, b[..|b| - 1], k);
    } else {
      assert a + b == a;
    }
  }

  /** The plant, fungal and soil counts add up to the number of features. */
  lemma {:induction false} CountsSum(sites: seq<Site>)
    ensures CountKind(sites, Plant) + CountKind(sites, Fungal) + CountKind(sites, Soil) == |sites|
  {
    if sites != [] {
      CountsSum(sites[..|sites| - 1]);
    }
  }

  lemma {:induction false} CountAbsent(sites: seq<Site>, k: Kind)
    requires forall s :: s in sites ==> s.kind != k
    ensures CountKind(sites, k) == 0
  {
    if sites != [] {
      assert sites[|sites| - 1] in sites;
      CountAbsent(sites[..|sites| - 1], k);
    }
  }

  /** Features whose kinds ascend hold at most one feature of each kind. */
  lemma AscendingCount(sites: seq<Site>, k: Kind)
    requires KindsAscend(sites)
    ensures CountKind(sites, k) <= 1
  {
    if sites != [] {
      var init := sites[..|sites| - 1];
      if sites[|sites| - 1].kind == k {
        forall s | s in init
          ensures s.kind != k
        {
          var x :| 0 <= x < |init| && init[x] == s;
          assert sites[x] == s;
        }
        CountAbsent(init, k);
      } else {
        assert KindsAscend(init) by {
          forall x, y | 0 <= x < y < |init|
            ensures Rank(init[x].kind) < Rank(init[y].kind)
          {
            assert init[x] == sites[x] && init[y] == sites[y];
          }
        }
        AscendingCount(init, k);
      }
    }
  }

  /** Every kind is counted at most once per row. */
  lemma {:induction false} CountPerRow(rows: seq<Row>, parseFloat: string -> Option<real>, k: Kind)
    ensures CountKind(Features(rows, parseFloat), k) <= |rows|
  {
    if rows != [] {
      var init := rows[..|rows| - 1];
      CountPerRow(init, parseFloat, k);
      RowSitesMeaning(rows[|rows| - 1], parseFloat);
      AscendingCount(RowSites(rows[|rows| - 1], parseFloat), k);
      CountKindAppend(Features(init, parseFloat), RowSites(rows[|rows| - 1], parseFloat), k);
    }
  }

  /** The figures `updateStats` shows. */
  datatype Stats = Stats(total: nat, plant: nat, fungal: nat, soil: nat, connections: nat)

  function StatsOf(sites: seq<Site>, connections: nat): (s: Stats)
    ensures s.plant + s.fungal + s.soil == s.total == |sites|
    ensures s.connections == connections
  {
    CountsSum(sites);
    Stats(|sites|, CountKind(sites, Plant), CountKind(sites, Fungal), CountKind(sites, Soil), connections)
  }

  /** The `connection-type` of a line. */
  datatype ConnectionType = PlantFungal | SoilPlant | General

  /**
   * The type of the line from a point of kind `from` to one of kind `to`:
   * an ordered rule, so that a fungal point joined to a later plant point
   * is a general connection.
   */
  function TypeOf(from: Kind, to: Kind): (t: ConnectionType)
    ensures t == PlantFungal <==> from == Plant && to == Fungal
    ensures t == SoilPlant <==> from == Soil && to == Plant
  {
    if from == Plant && to == Fungal then PlantFungal
    else if from == Soil && to == Plant then SoilPlant
    else General
  }

  /** The rule is not symmetric: a typed connection read backwards is general. */
  lemma TypeOfOrdered(from: Kind, to: Kind)
    ensures TypeOf(from, to) != General ==> TypeOf(to, from) == General
    ensures TypeOf(Fungal, Plant) == General && TypeOf(Plant, Soil) == General
  {
  }

  /** A line feature: the indices of its two points, its type and the first point's plant species. */
  datatype Connection = Connection(from: nat, to: nat, kind: ConnectionType, plantSpecies: Value)

  /** `maxConnections`. */
  const MaxConnections: nat := 2000

  /** The line from point `i` to point `j`. */
  function ConnectionOf(sites: seq<Site>, i: nat, j: nat): Connection
    requires i < |sites| && j < |sites|
  {
    Connection(i, j, TypeOf(sites[i].kind, sites[j].kind), sites[i].properties.plantSpecies)
  }

  /** `nearbyPoints` of point `i` among the first `m` points: the later ones the test accepts. */
  function Nearby(i: nat, m: nat, accept: (nat, nat) -> bool): (js: seq<nat>)
    ensures forall j :: j in js ==> i < j < m
    ensures |js| <= if i < m then m - i - 1 else 0
  {
    if m == 0 then []
    else Nearby(i, m - 1, accept) + (if i < m - 1 && accept(i, m - 1) then [m - 1] else [])
  }

  /** The points joined to `i` are exactly the accepted `j` with `i < j < m`, in ascending order. */
  lemma {:induction false} NearbyMeaning(i: nat, m: nat, accept: (nat, nat) -> bool)
    ensures forall j :: j in Nearby(i, m, accept) <==> i < j < m && accept(i, j)
    ensures forall x, y :: 0 <= x < y < |Nearby(i, m, accept)| ==> Nearby(i, m, accept)[x] < Nearby(i, m, accept)[y]
  {
    if m > 0 {
      NearbyMeaning(i, m - 1, accept);
      var init := Nearby(i, m - 1, accept);
      forall x | 0 <= x < |init|
        ensures init[x] < m - 1
      {
        assert init[x] in init;
      }
    }
  }

  /** The lines pushed for point `i`, one per joined point, in order. */
  function ConnectionsFrom(sites: seq<Site>, i: nat, js: seq<nat>): (cs: seq<Connection>)
    requires i < |sites| && forall j :: j in js ==> j < |sites|
    ensures |cs| == |js|
  {
    seq(|js|, k requires 0 <= k < |js| => assert js[k] in js; ConnectionOf(sites, i, js[k]))
  }

  /** `lineFeatures` once point `i` is reached with `acc` built so far: the outer loop runs while points remain and fewer than `maxConnections` lines exist. */
  function Run(sites: seq<Site>, accept: (nat, nat) -> bool, i: nat, acc: seq<Connection>): seq<Connection>
    requires i <= |sites|
    decreases |sites| - i
  {
    if i < |sites| && |acc| < MaxConnections then
      Run(sites, accept, i + 1, acc + ConnectionsFrom(sites, i, Nearby(i, |sites|, accept)))
    else acc
  }

  /** `createMyceliumConnections(geoJsonData).features`. */
  function Connections(sites: seq<Site>, accept: (nat, nat) -> bool): seq<Connection>
  {
    Run(sites, accept, 0, [])
  }

  /** A line between two accepted points `from < to`, typed by the ordered rule and labelled with the first point's species. */
  predicate Sound(sites: seq<Site>, accept: (nat, nat) -> bool, c: Connection)
  {
    && c.from < c.to < |sites| && accept(c.from, c.to)
    && c.kind == TypeOf(sites[c.from].kind, sites[c.to].kind)
    && c.plantSpecies == sites[c.from].properties.plantSpecies
  }

  /** Lines strictly ordered by first point and then second, so no pair occurs twice. */
  predicate Ascending(cs: seq<Connection>)
  {
    forall x, y :: 0 <= x < y < |cs| ==> cs[x].from < cs[y].from || (cs[x].from == cs[y].from && cs[x].to < cs[y].to)
  }

  /** The lines of point `i` are sound and ascending. */
  lemma FromSound(sites: seq<Site>, accept: (nat, nat) -> bool, i: nat)
    requires i < |sites|
    ensures forall c :: c in ConnectionsFrom(sites, i, Nearby(i, |sites|, accept)) ==> Sound(sites, accept, c) && c.from == i
    ensures Ascending(ConnectionsFrom(sites, i, Nearby(i, |sites|, accept)))
  {
    NearbyMeaning(i, |sites|, accept);
    AcceptedSound(sites, accept, i, Nearby(i, |sites|, accept));
  }

  lemma AcceptedSound(sites: seq<Site>, accept: (nat, nat) -> bool, i: nat, js: seq<nat>)
    requires i < |sites|
    requires forall j :: j in js ==> i < j < |sites| && accept(i, j)
    requires forall x, y :: 0 <= x < y < |js| ==> js[x] < js[y]
    ensures forall c :: c in ConnectionsFrom(sites, i, js) ==> Sound(sites, accept, c) && c.from == i
    ensures Ascending(ConnectionsFrom(sites, i, js))
  {
    forall c | c in ConnectionsFrom(sites, i, js)
      ensures Sound(sites, accept, c) && c.from == i
    {
      var k :| 0 <= k < |js| && ConnectionsFrom(sites, i, js)[k] == c;
      assert js[k] in js;
    }
  }

  /** Appending the lines of point `i` to lines of earlier points keeps them sound and ascending. */
  lemma AppendFrom(sites: seq<Site>, accept: (nat, nat) -> bool, i: nat, acc: seq<Connection>)
    requires i < |sites|
    requires Ascending(acc) && forall c :: c in acc ==> Sound(sites, accept, c) && c.from < i
    ensures var next := acc + ConnectionsFrom(sites, i, Nearby(i, |sites|, accept));
      && Ascending(next)
      && forall c :: c in next ==> Sound(sites, accept, c) && c.from < i + 1
  {
    FromSound(sites, accept, i);
    var more := ConnectionsFrom(sites, i, Nearby(i, |sites|, accept));
    var next := acc + more;
    forall x, y | 0 <= x < y < |next|
      ensures next[x].from < next[y].from || (next[x].from == next[y].from && next[x].to < next[y].to)
    {
      if y >= |acc| {
        assert next[y] in more;
        if x < |acc| {
          assert next[x] in acc;
        } else {
          assert next[x] == more[x - |acc|] && next[y] == more[y - |acc|];
        }
      }
    }
  }

  /** Every line the loop produces joins accepted points `i < j`, is typed by the ordered rule, and the lines are in pair order. */
  lemma {:induction false} RunSound(sites: seq<Site>, accept: (nat, nat) -> bool, i: nat, acc: seq<Connection>)
    requires i <= |sites|
    requires Ascending(acc) && forall c :: c in acc ==> Sound(sites, accept, c) && c.from < i
    ensures Ascending(Run(sites, accept, i, acc))
    ensures forall c :: c in Run(sites, accept, i, acc) ==> Sound(sites, accept, c)
    decreases |sites| - i
  {
    if i < |sites| && |acc| < MaxConnections {
      AppendFrom(sites, accept, i, acc);
      RunSound(sites, accept, i + 1, acc + ConnectionsFrom(sites, i, Nearby(i, |sites|, accept)));
    }
  }

  /** Every accepted later point of `i` is joined to it. */
  lemma FromComplete(sites: seq<Site>, accept: (nat, nat) -> bool, i: nat)
    requires i < |sites|
    ensures forall b: nat :: i < b < |sites| && accept(i, b) ==> ConnectionOf(sites, i, b) in ConnectionsFrom(sites, i, Nearby(i, |sites|, accept))
  {
    var js := Nearby(i, |sites|, accept);
    NearbyMeaning(i, |sites|, accept);
    forall b: nat | i < b < |sites| && accept(i, b)
      ensures ConnectionOf(sites, i, b) in ConnectionsFrom(sites, i, js)
    {
      var k :| 0 <= k < |js| && js[k] == b;
      assert ConnectionsFrom(sites, i, js)[k] == ConnectionOf(sites, i, b);
    }
  }

  /** The lines of the first `i` points, had the loop no cap. */
  function Through(sites: seq<Site>, accept: (nat, nat) -> bool, i: nat): seq<Connection>
    requires i <= |sites|
  {
    if i == 0 then [] else Through(sites, accept, i - 1) + ConnectionsFrom(sites, i - 1, Nearby(i - 1, |sites|, accept))
  }

  /**
   * The loop stops adding points only once `maxConnections` lines exist, but
   * the point it is on adds all its lines: a result shorter than
   * `maxConnections` is the lines of every point.
   */
  lemma {:induction false} RunThrough(sites: seq<Site>, accept: (nat, nat) -> bool, i: nat, acc: seq<Connection>)
    requires i <= |sites| && acc == Through(sites, accept, i)
    ensures |Run(sites, accept, i, acc)| < MaxConnections ==> Run(sites, accept, i, acc) == Through(sites, accept, |sites|)
    decreases |sites| - i
  {
    if i < |sites| && |acc| < MaxConnections {
      RunThrough(sites, accept, i + 1, acc + ConnectionsFrom(sites, i, Nearby(i, |sites|, accept)));
    }
  }

  /** What is in either part is in the concatenation. */
  lemma InEither<T>(x: T, a: seq<T>, b: seq<T>)
    requires x in a || x in b
    ensures x in a + b
  {
    if x in a {
      var k :| 0 <= k < |a| && a[k] == x;
      assert (a + b)[k] == x;
    } else {
      var k :| 0 <= k < |b| && b[k] == x;
      assert (a + b)[|a| + k] == x;
    }
  }

  /** The lines of the first `i` points join every accepted pair `a < b` with `a < i`. */
  lemma {:induction false} ThroughComplete(sites: seq<Site>, accept: (nat, nat) -> bool, i: nat, a: nat, b: nat)
    requires i <= |sites| && a < i && a < b < |sites| && accept(a, b)
    ensures ConnectionOf(sites, a, b) in Through(sites, accept, i)
  {
    var before := Through(sites, accept, i - 1);
    var more := ConnectionsFrom(sites, i - 1, Nearby(i - 1, |sites|, accept));
    assert Through(sites, accept, i) == before + more;
    var line := ConnectionOf(sites, a, b);
    if a < i - 1 {
      ThroughComplete(sites, accept, i - 1, a, b);
      InEither(line, before, more);
    } else {
      FromComplete(sites, accept, i - 1);
      InEither(line, before, more);
    }
  }

  /** Each point adds fewer lines than there are points, so the loop overshoots `maxConnections` by less than the number of points. */
  lemma {:induction false} RunBound(sites: seq<Site>, accept: (nat, nat) -> bool, i: nat, acc: seq<Connection>)
    requires i <= |sites| && |acc| < MaxConnections + |sites|
    ensures |Run(sites, accept, i, acc)| < MaxConnections + |sites|
    decreases |sites| - i
  {
    if i < |sites| && |acc| < MaxConnections {
      RunBound(sites, accept, i + 1, acc + ConnectionsFrom(sites, i, Nearby(i, |sites|, accept)));
    }
  }

  /**
   * What `createMyceliumConnections` promises: every line joins accepted
   * points `i < j` with the ordered type rule, lines are in pair order with
   * no repeats, there are fewer than `maxConnections` plus the number of
   * points, and below `maxConnections` every accepted pair is joined.
   */
  lemma ConnectionsMeaning(sites: seq<Site>, accept: (nat, nat) -> bool)
    ensures Ascending(Connections(sites, accept))
    ensures forall c :: c in Connections(sites, accept) ==> Sound(sites, accept, c)
    ensures |Connections(sites, accept)| < MaxConnections + |sites|
    ensures |Connections(sites, accept)| < MaxConnections ==>
      forall a: nat, b: nat :: a < b < |sites| && accept(a, b) ==> ConnectionOf(sites, a, b) in Connections(sites, accept)
  {
    RunSound(sites, accept, 0, []);
    RunThrough(sites, accept, 0, []);
    forall a: nat, b: nat | a < b < |sites| && accept(a, b)
      ensures ConnectionOf(sites, a, b) in Through(sites, accept, |sites|)
    {
      ThroughComplete(sites, accept, |sites|, a, b);
    }
    RunBound(sites, accept, 0, []);
  }

  lemma ConnectionsFromSnoc(sites: seq<Site>, i: nat, js: seq<nat>, j: nat)
    requires i < |sites| && j < |sites| && forall x :: x in js ==> x < |sites|
    ensures ConnectionsFrom(sites, i, js + [j]) == ConnectionsFrom(sites, i, js) + [ConnectionOf(sites, i, j)]
  {
  }

  /** The `filter` and `forEach` over the candidates of point `i`. */
  method ConnectPoint(sites: seq<Site>, accept: (nat, nat) -> bool, i: nat, lines: seq<Connection>) returns (lines': seq<Connection>)
    requires i < |sites|
    ensures lines' == lines + ConnectionsFrom(sites, i, Nearby(i, |sites|, accept))
  {
    lines' := lines;
    for j := 0 to |sites|
      invariant lines' == lines + ConnectionsFrom(sites, i, Nearby(i, j, accept))
    {
      if i < j && accept(i, j) {
        ConnectionsFromSnoc(sites, i, Nearby(i, j, accept), j);
        lines' := lines' + [ConnectionOf(sites, i, j)];
      }
    }
  }

  /** The outer loop of `createMyceliumConnections`. */
  method CreateConnections(sites: seq<Site>, accept: (nat, nat) -> bool) returns (lines: seq<Connection>)
    ensures lines == Connections(sites, accept)
  {
    lines := [];
    var i := 0;
    while i < |sites| && |lines| < MaxConnections
      invariant i <= |sites|
      invariant Run(sites, accept, i, lines) == Connections(sites, accept)
    {
      assert Run(sites, accept, i, lines) == Run(sites, accept, i + 1, lines + ConnectionsFrom(sites, i, Nearby(i, |sites|, accept)));
      lines := ConnectPoint(sites, accept, i, lines);
      i := i + 1;
    }
    assert Run(sites, accept, i, lines) == lines;
  }
}
