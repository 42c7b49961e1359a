# Data-preparation core of the arts-and-science map and chart scripts

This project models, in Dafny, the parts of the four visualisation scripts
that compute something. The drawing itself is not modelled.

- **Edge-bundling chart** (`intersecting-fields-chart.js`):
  - `hierarchy` builds a tree from records with delimited names
    (`hierarchy.dfy`, a `Builder` class over a heap of nodes).
  - `id` names a node by its full dotted path, and `bilink` gives every
    leaf its `outgoing` and `incoming` links (`links.dfy`, over arrays of
    lists).
  - `BezierCurve` and `Line` halve a path segment (`curves.dfy`).
  - The recording `Path` context and its `split(k)` bisection into
    fragments (`path.dfy`).
- **Rainfall chart** (`d3-visualization-temporal.js`), in `rainfall.dfy`:
  - the quote-aware `parseCSVLine` loop;
  - the row loop of `loadRainfallData`;
  - the year-by-month grid of `createDemoRainfallChart`.
- **Community-of-practice map** (`main.js`), in `community_map.dfy`:
  - the per-row callback of `parseCSVToGeoJSON`;
  - the nested loop that joins every pair of points with a line.
- **Mycorrhizal network map** (`mycelium-networks.js`), in `mycelium.dfy`:
  - the per-row, per-location loop of `parseMyceliumCSVToGeoJSON`;
  - the connection loop of `createMyceliumConnections`;
  - the per-kind counts of `updateStats`.
- **Shared by both maps** (`geo.dfy`):
  - JavaScript truthiness;
  - the trimming of header keys;
  - the popup's longitude-wrap loop.
- **Shared string functions** (`text.dfy`): `lastIndexOf`, `split`,
  `join`, `trim`, and assignment under trimmed keys.
- `wrappers.dfy` holds `Option` and `Result`.

Some functions are taken as parameters rather than modelled:

- `parseFloat`, `parseInt` and a number's `toString` text. A partial
  parser answers `None` where JavaScript gives NaN.
- `Math.random`, as a sequence of draws in [0, 1).
- The distance-and-chance test that decides whether two mycelium points
  are joined: a predicate `accept` on the pair of indices.

Behaviours of the code that are easy to misread:

- `split(0)` yields two fragments, not one. It bisects once before it
  tests `k > 1` (`Paths.SplitCount`).
- Take records `"a.b"` and then `"a"`. `find("a.b")` creates the group
  node `"a"`, and the later record `"a"` finds that name already in the
  map. So it is left out of the tree, and its data is not attached to the
  group (`Hierarchy.Hierarchy`).
- If record `"a"` comes first, pushing `"a.b"` onto it throws. An input
  record has no `children` array (`Hierarchy.BuildError`).
- Imports are read from `imports`, and a dangling import keeps an
  `undefined` target.

## Model

| member | source | states |
|---|---|---|
| Text.LastIndexOf | intersecting-fields-chart.js:8 | the result is -1 or a position holding the delimiter, with no delimiter after it |
| Text.SplitOn | main.js:32 | `split` on one character yields at least one piece |
| Text.SplitJoin | d3-visualization-temporal.js:34-35 | joining the pieces of `s.split(c)` with `c` gives `s` back |
| Text.SplitPieces | d3-visualization-temporal.js:34-35 | no piece holds the separator; there is one piece more than there are separators |
| Text.SplitWhole | main.js:32 | text without the separator is a single piece |
| Text.SplitAround | main.js:32 | a separator between two texts splits them apart: the pieces of each, concatenated |
| Text.LeadingSpace | main.js:26 | the count of leading white-space characters; the next character is not white space |
| Text.TrailingCut | main.js:26 | the length without trailing white space; the last kept character is not white space |
| Text.Trim | main.js:31 | `trim` never lengthens its input |
| Text.TrimExact | main.js:26 | `trim` yields a slice of the input that neither starts nor ends with white space; everything cut off is white space |
| Text.ReplaceChar | intersecting-fields-chart.js:38 | each character equal to the delimiter becomes ".", every other one is kept, and the length is unchanged |
| Text.AssignTrimmedHasKeys | main.js:24-28 | after `cleanedRow[key.trim()] = row[key]` for every key, every trimmed key is set |
| Text.AssignTrimmedOnlyKeys | main.js:24-28 | nothing but trimmed keys is set |
| Text.AssignTrimmedLastWins | main.js:24-28 | a key holds the value of the last column whose header trims to it |
| Curves.SplitCurve | intersecting-fields-chart.js:66-72 | `BezierCurve.split()` gives two cubics; the left keeps `a`, the right keeps `d`, and they meet at the curve's point at t = 1/2 |
| Curves.SplitLine | intersecting-fields-chart.js:85-89 | `Line.split()` gives two lines that keep the ends and meet at the line's midpoint |
| Curves.Split | intersecting-fields-chart.js:66-89 | either kind of segment splits into halves that keep its ends and meet at its point at t = 1/2 |
| Curves.BlendWeightsSumToOne | intersecting-fields-chart.js:46-50 | each of the five blend vectors `l1`, `l2`, `l3`, `r1`, `r2` sums to 1 |
| Curves.DotOfSinglePoint | intersecting-fields-chart.js:52-57 | `dot` with a vector that sums to 1 maps a cubic whose four points coincide to that point |
| Curves.CubicPowerForm | intersecting-fields-chart.js:59-72 | the Bernstein form of a cubic coordinate equals its power-basis form |
| Curves.CubicLeftHalf | intersecting-fields-chart.js:67-69 | one coordinate of the left half at t is the original at t/2 |
| Curves.CubicRightHalf | intersecting-fields-chart.js:67-70 | one coordinate of the right half at t is the original at (1 + t)/2 |
| Curves.SplitReparametrises | intersecting-fields-chart.js:66-89 | the halving is exact: the left half traced over [0,1] is the original over [0,1/2], the right half the original over [1/2,1] |
| Paths.BisectCovers | intersecting-fields-chart.js:112-121 | the two pieces of one bisection, concatenated, are the list with its middle segment (odd length) cut in two; each piece holds ceil(n/2) segments |
| Paths.SplitSegments | intersecting-fields-chart.js:111-129 | `split(k)` always yields at least two fragments |
| Paths.SplitSegmentsOnce | intersecting-fields-chart.js:125-128 | for k <= 1 the fragments are the two pieces of one bisection |
| Paths.SplitSegmentsTwice | intersecting-fields-chart.js:122-124 | for k > 1 the fragments are those of the first piece followed by those of the second |
| Paths.SplitCount | intersecting-fields-chart.js:111-129 | `split(k)` yields 2^k fragments for k >= 1, and two for k = 0 |
| Paths.SplitEmptiness | intersecting-fields-chart.js:111-129 | an empty path gives only empty fragments, and a non-empty one only non-empty fragments |
| Paths.BisectEnds | intersecting-fields-chart.js:112-121 | bisecting a non-empty list gives two non-empty pieces that keep its first start and its last end |
| Paths.BisectContinuous | intersecting-fields-chart.js:112-121 | bisecting a continuous list gives two continuous pieces, the first ending where the second starts |
| Paths.SplitKeepsEnds | intersecting-fields-chart.js:111-129 | the first fragment starts where the path starts and the last ends where it ends |
| Paths.SplitCoversPath | intersecting-fields-chart.js:111-129 | the fragments of a continuous path form one continuous run from its start to its end, each ending where the next starts |
| Paths.Path.constructor | intersecting-fields-chart.js:97-100 | a new path holds the given segments and no current point |
| Paths.Path.MoveTo | intersecting-fields-chart.js:101-104 | drops the segments and sets the current point |
| Paths.Path.LineTo | intersecting-fields-chart.js:105-107 | appends a line from the current point to (x, y), which becomes the current point; continuity is kept |
| Paths.Path.BezierCurveTo | intersecting-fields-chart.js:108-110 | appends a cubic from the current point through the two controls to (x, y), which becomes the current point; continuity is kept |
| Paths.Path.Split | intersecting-fields-chart.js:111-129 | yields fresh paths holding exactly the fragments of `SplitSegments`, in order, each with no current point |
| Hierarchy.Ancestors | intersecting-fields-chart.js:5-17 | the names `find` visits include the name itself and are no longer than it |
| Hierarchy.Segments | intersecting-fields-chart.js:8-12 | a name cut at every delimiter has at least one part |
| Hierarchy.AncestorsInIndex | intersecting-fields-chart.js:7-11 | the map holds every prefix of every name it holds |
| Hierarchy.PushChildWellformed | intersecting-fields-chart.js:11-12 | pushing a renamed node onto the node of its prefix keeps the builder's invariant |
| Hierarchy.PushRootWellformed | intersecting-fields-chart.js:13-15 | entering a node whose name has no delimiter, as the root, keeps the invariant |
| Hierarchy.Parent | intersecting-fields-chart.js:8-11 | a node with a delimiter has a parent whose full name is strictly shorter |
| Hierarchy.TopOf | intersecting-fields-chart.js:13-15 | every node's chain of parents ends at a node whose name has no delimiter |
| Hierarchy.ChildrenAreParentOf | intersecting-fields-chart.js:11 | a node's `children` are exactly the nodes whose parent it is |
| Hierarchy.ChildrenInEntryOrder | intersecting-fields-chart.js:11 | a `children` array lists exactly the nodes whose parent it is, in the order they were entered |
| Hierarchy.ChainIsSegments | intersecting-fields-chart.js:8-12 | the names along a node's parent chain are its full name cut at every delimiter |
| Hierarchy.InTreeIffTop | intersecting-fields-chart.js:14-18 | a node is under the root exactly when the root is the top of its chain |
| Hierarchy.EarlierTopsUnreachable | intersecting-fields-chart.js:14-18 | any other undelimited name came before the root, and the returned root does not reach its tree |
| Hierarchy.ExtendsKeepsHolds | intersecting-fields-chart.js:5-17 | growing the store keeps every record that was in the tree as its own node |
| Hierarchy.EnteredHolds | intersecting-fields-chart.js:9-12 | a record entered as a new node keeps its `imports` and has no `children` array |
| Hierarchy.ExtendsKeepsIndex | intersecting-fields-chart.js:7 | growing the store keeps every name at the node it had |
| Hierarchy.ExtendsKeepsGroup | intersecting-fields-chart.js:11 | growing the store keeps every group a group |
| Hierarchy.BlockedUp | intersecting-fields-chart.js:11 | a node without `children` that blocks the prefix of a name blocks the name |
| Hierarchy.PrefixesHaveChildren | intersecting-fields-chart.js:9-11 | every proper prefix of a name in the map holds a node with a `children` array |
| Hierarchy.EnterUnblocked | intersecting-fields-chart.js:11 | once the prefix is found as a node with `children`, no prefix of the name blocks it |
| Hierarchy.RecordKeysMember | intersecting-fields-chart.js:7-9 | a name is a record's name exactly when some record new at its turn carries it |
| Hierarchy.BlockedIffClash | intersecting-fields-chart.js:5-11 | after the first `k` records, `find` fails on record `k` exactly when an earlier record new at its turn names a proper prefix of it, and what blocks it is such a record |
| Hierarchy.StepOrder | intersecting-fields-chart.js:9 | records new at their turn keep their heap order when the next record goes in |
| Hierarchy.ProgressStep | intersecting-fields-chart.js:5-17 | one successful `forEach` step takes the loop's progress from `k` to `k + 1` |
| Hierarchy.ProgressDone | intersecting-fields-chart.js:5-17 | progress over all the records, spelled out |
| Hierarchy.Builder.constructor | intersecting-fields-chart.js:3-4 | an empty map, no nodes and no root |
| Hierarchy.Builder.Find | intersecting-fields-chart.js:5-17 | a known name is returned unchanged; a new one is entered under its prefix (created when missing) or as the root; the map gains exactly the name's prefixes, and every new name other than the name itself is a group; it fails exactly when the name is new and a proper prefix of it holds a node without `children`, and then names that prefix |
| Hierarchy.Builder.Enter | intersecting-fields-chart.js:8-12 | for a new name with a delimiter: find the prefix, then push the renamed node onto it; every prefix created on the way is a group; it fails exactly when a proper prefix holds a node without `children`, and names such a prefix |
| Hierarchy.Builder.PushUnder | intersecting-fields-chart.js:11-12 | pushes the node onto its prefix's `children` and renames it to the part after the last delimiter; every group stays a group |
| Hierarchy.Builder.Insert | intersecting-fields-chart.js:5-17 | one `forEach` step: the map gains exactly the record's prefixes and keeps every old name at its node; every record already held stays held and every group stays a group; a record whose name was new is held as the newest node, with its imports, and the other new names are groups; it fails exactly when a proper prefix of a new name holds a node without `children` |
| Hierarchy.InsertAt | intersecting-fields-chart.js:5-17 | the callback on record `k` fails exactly when an earlier record new at its turn names a proper prefix of record `k`'s name, and names it; otherwise the loop's progress reaches `k + 1` |
| Hierarchy.Hierarchy | intersecting-fields-chart.js:2-19 | the map is keyed by every record name and prefix; each record new at its turn is in the tree as its own node, and such records entered in their input order; every other name is a group without imports; the root is the last undelimited node; the call fails exactly when a record new at its turn names a proper prefix of a later record's name, and the error names that record |
| Links.IdMap | intersecting-fields-chart.js:23 | every id maps to a leaf that has it, and when leaves share an id the last one wins |
| Links.OutgoingOf | intersecting-fields-chart.js:26 | one pair per import, or none without `imports` |
| Links.Outgoing | intersecting-fields-chart.js:24-27 | one `outgoing` list per leaf |
| Links.OutgoingResolves | intersecting-fields-chart.js:23-26 | a pair's source is its leaf; its target is absent exactly when no leaf has the imported id, and otherwise is the last leaf with that id |
| Links.HitsExactly | intersecting-fields-chart.js:29-31 | the pushes of one leaf onto `t` are exactly its pairs that target `t`, in order |
| Links.IncomingExactly | intersecting-fields-chart.js:28-32 | `t.incoming` holds exactly the pairs that target `t`, ordered by source leaf and then by position; untargeted pairs are in no list |
| Links.OutgoingTargets | intersecting-fields-chart.js:26 | every resolved target is a leaf |
| Links.PushIncoming | intersecting-fields-chart.js:29-31 | the inner loop appends to each target's `incoming` exactly the pairs of this leaf that target it |
| Links.Bilink | intersecting-fields-chart.js:22-34 | `outgoing` is rebuilt from the imports and `incoming` is the exact reverse of `outgoing`, whatever the fields held before |
| Links.IdOfSegments | intersecting-fields-chart.js:37-39 | `id` of a name's parts is the name with every delimiter turned into "." |
| Links.IdRoundTrip | intersecting-fields-chart.js:37-39 | in a built tree, a node's `id` is its record name with the delimiter turned into "."; with the default "." it is the record name itself |
| Links.LeavesOf | intersecting-fields-chart.js:23 | the nodes at the given positions of a built tree, one leaf per position, all named (the leaf list itself is taken as given) |
| Links.TreeImportsResolve | intersecting-fields-chart.js:22-34 | with the default delimiter, an import targets exactly the leaf whose record name it is, or nothing when no leaf has that name |
| Rainfall.ParseCSVLine | d3-visualization-temporal.js:70-90 | the loop returns the fields of the line as `Fields` defines them |
| Rainfall.RemoveQuotes | d3-visualization-temporal.js:78-79 | the result holds no quote |
| Rainfall.ScanMeaning | d3-visualization-temporal.js:75-86 | at every step the quote state is the parity of the quotes read, and the fields so far are the quote-free text cut at unquoted commas |
| Rainfall.FieldsMeaning | d3-visualization-temporal.js:70-90 | one field more than there are unquoted commas; no field holds a quote; the fields joined with "," are the line without its quotes |
| Rainfall.AssembleRow | d3-visualization-temporal.js:41-44 | the `forEach` builds the row object of `RowOf` |
| Rainfall.LineReading | d3-visualization-temporal.js:39-56 | a line gives at most one reading |
| Rainfall.Lines | d3-visualization-temporal.js:34 | the trimmed file text cut at newlines has at least one line |
| Rainfall.ReadLine | d3-visualization-temporal.js:39-56 | one pass of the row loop gives the reading of `LineReading` |
| Rainfall.LoadRainfall | d3-visualization-temporal.js:34-58 | the readings of every line after the header, in order |
| Rainfall.LineReadingMeaning | d3-visualization-temporal.js:40-56 | a reading exists exactly when the line has enough fields and its total parses; its row has every trimmed header; its capacity flag is set exactly when the value is "Yes" |
| Rainfall.ReadingsFromLines | d3-visualization-temporal.js:38-58 | at most one reading per line, and a reading is kept exactly when some line gives it |
| Rainfall.Find | d3-visualization-temporal.js:117 | `find` returns a demo record of that year and month, or none when no record has it |
| Rainfall.FindFirst | d3-visualization-temporal.js:117 | `find` returns a record when no earlier record shares its month |
| Rainfall.DemoRecordsInRange | d3-visualization-temporal.js:96-111 | every demo record lies between 1999 and 2024, the records are in month order, and `find` returns each for its own month |
| Rainfall.CellOfInverse | d3-visualization-temporal.js:115-116 | a grid cell and its year and month determine each other |
| Rainfall.DemoEntryFits | d3-visualization-temporal.js:117-119 | a month with a demo record gets that record |
| Rainfall.GeneratedEntryFits | d3-visualization-temporal.js:120-133 | a month without one gets a generated month: at least 0.5 inches (the `Math.max`), hourly maximum in [0.3, 1.8), no capacity overflow, no storm, "Normal precipitation" |
| Rainfall.DemoRecordsInGrid | d3-visualization-temporal.js:114-136 | every demo record is in the grid, in its own month's cell |
| Rainfall.FillYear | d3-visualization-temporal.js:116-135 | the inner loop appends the twelve months of a year, each as the grid requires |
| Rainfall.DemoGrid | d3-visualization-temporal.js:114-136 | one entry per month from January 1999 to December 2024, in order, each the demo record of its month or, when there is none, `Generated` from two draws in [0, 1), with every demo record in its own cell |
| Geo.CleanKeys | main.js:24-28 | the `forEach` over the keys builds the cleaned row of `AssignTrimmed` |
| Geo.WrapLongitude | main.js:199-201 | the loop ends with the longitude within 180 degrees of the click, moved by whole turns of 360 toward it, unchanged when already within 180; the latitude is untouched |
| Geo.PopupCoordinates | mycelium-networks.js:354-362 | the popup gets a fresh copy; the feature keeps its coordinates; the copy's longitude is within 180 degrees of the click, a whole number of turns from the feature's |
| CommunityMap.CollectOk | main.js:22-48 | `map` succeeds exactly when every call does, and returns their values in order |
| CommunityMap.CollectErr | main.js:22-48 | when a call throws, `map` throws the first exception |
| CommunityMap.PlacesOk | main.js:22-48 | one feature per row, in row order, exactly when no row throws |
| CommunityMap.PlacesErr | main.js:31 | otherwise the error names the first row whose "lat-long" cell is missing or null |
| CommunityMap.LatLongOrder | main.js:31-45 | for a cell with one comma that reads "lat,lng" after trimming, the coordinates are `[lng, lat]`, and all five properties are the row's cells under those names |
| CommunityMap.LinesFor | main.js:117-132 | one line per pair |
| CommunityMap.RowPairMember | main.js:112 | the inner loop for `i` visits a pair exactly when it is `(i, j)` with `i < j < n` |
| CommunityMap.PairMember | main.js:111-112 | a pair is visited before row `i` exactly when it is `(a, b)` with `a < b < n` and `a < i` |
| CommunityMap.PairsBeforeMembers | main.js:111-112 | the pairs visited before row `i` are exactly those `a < b < n` with `a < i` |
| CommunityMap.PairsBeforeOrdered | main.js:111-112 | they are strictly ordered by first and then second index |
| CommunityMap.PairsBeforeCount | main.js:111-112 | there are i(2n - i - 1)/2 of them |
| CommunityMap.AllPairsMeaning | main.js:111-134 | n(n - 1)/2 lines, one per pair i < j, ordered by i and then j, none from a point to itself |
| CommunityMap.PairsBeforeIn | main.js:111-112 | every visited index is a point |
| CommunityMap.ConnectFrom | main.js:112-133 | the inner loop appends the lines of point `i` to those of the earlier points |
| CommunityMap.ConnectAll | main.js:107-134 | `lineFeatures` is the line of every pair, in the order of `AllPairs` |
| Mycelium.Locations | mycelium-networks.js:32-36 | three locations: plant, fungal and soil, in that order |
| Mycelium.OrUnknown | mycelium-networks.js:62-68 | `v \|\| 'Unknown'` is never falsy; it is `v` when `v` is truthy and "Unknown" otherwise |
| Mycelium.PropertiesOf | mycelium-networks.js:60-69 | no property of a feature is falsy |
| Mycelium.SiteOf | mycelium-networks.js:40-70 | a pushed feature lies on the globe, has its location's kind, and has no falsy property |
| Mycelium.SkipRule | mycelium-networks.js:40-58 | a location yields a feature exactly when both cells are truthy (so 0 is dropped), parse, and lie on the globe; the feature holds `[lng, lat]` |
| Mycelium.SitesOf | mycelium-networks.js:38-71 | at most one feature per location |
| Mycelium.SitesOfOrigin | mycelium-networks.js:38-71 | each feature comes from the location of its own kind |
| Mycelium.SitesOfCover | mycelium-networks.js:38-71 | every location that passes the checks contributes its feature |
| Mycelium.SitesOfAscend | mycelium-networks.js:32-71 | the features' kinds ascend |
| Mycelium.RowSitesMeaning | mycelium-networks.js:32-71 | each row gives at most three features, in the order plant, fungal, soil; a kind is present exactly when its location passes |
| Mycelium.FeaturesValid | mycelium-networks.js:23-72 | at most three features per row, each on the globe and with no falsy property |
| Mycelium.PushLocations | mycelium-networks.js:38-71 | the inner loop pushes the row's features onto `features` |
| Mycelium.ParseMycelium | mycelium-networks.js:21-72 | the loops build the features of every row, row after row |
| Mycelium.CountsSum | mycelium-networks.js:503-507 | the plant, fungal and soil counts add up to the number of features |
| Mycelium.AscendingCount | mycelium-networks.js:503-505 | features whose kinds ascend hold at most one of each kind |
| Mycelium.CountPerRow | mycelium-networks.js:503-505 | each count is at most the number of rows |
| Mycelium.StatsOf | mycelium-networks.js:502-511 | the plant, fungal and soil counts shown add up to the total number of features |
| Mycelium.TypeOf | mycelium-networks.js:236-241 | "plant-fungal" exactly for plant then fungal, "soil-plant" exactly for soil then plant, "general" otherwise |
| Mycelium.TypeOfOrdered | mycelium-networks.js:236-241 | the rule is not symmetric: a typed pair read backwards is general |
| Mycelium.Nearby | mycelium-networks.js:200-202 | every candidate `j` lies after `i` |
| Mycelium.NearbyMeaning | mycelium-networks.js:200-225 | the candidates are exactly the accepted `j` with `i < j`, in ascending order |
| Mycelium.ConnectionsFrom | mycelium-networks.js:228-255 | one line per nearby point |
| Mycelium.FromSound | mycelium-networks.js:200-255 | the lines of point `i` start at `i`, join accepted points `i < j`, carry the ordered type and the first point's species, and ascend |
| Mycelium.AppendFrom | mycelium-networks.js:196-256 | appending the lines of point `i` to those of earlier points keeps them sound and ascending |
| Mycelium.RunSound | mycelium-networks.js:196-256 | every line the loop produces is sound, and the lines are in pair order |
| Mycelium.FromComplete | mycelium-networks.js:200-225 | every accepted later point of `i` is joined to it |
| Mycelium.RunThrough | mycelium-networks.js:196 | below `maxConnections` lines, the loop has run over every point |
| Mycelium.ThroughComplete | mycelium-networks.js:196-256 | the lines of the first `i` points join every accepted pair `a < b` with `a < i` |
| Mycelium.RunBound | mycelium-networks.js:193-196 | the loop overshoots `maxConnections` by less than the number of points |
| Mycelium.ConnectionsMeaning | mycelium-networks.js:190-262 | lines join accepted points `i < j` with the ordered type rule, in pair order without repeats, fewer than 2000 plus the number of points; below 2000 every accepted pair is joined |
| Mycelium.ConnectPoint | mycelium-networks.js:200-256 | the `filter` and `forEach` for point `i` append its lines |
| Mycelium.CreateConnections | mycelium-networks.js:190-262 | the loop returns the lines of `Connections` |

## Left out

- All drawing is left out: d3 layouts (`d3.cluster`, `curveBundle`,
  `lineRadial`, `d3.transpose`), colour scales, SVG and tooltips, the
  maplibre layers and popups, `createMyceliumPopupContent` and the legend.
  The segments' and the path's `toString` are left out too.
- The input side is left out: `fetch`, `window.fs.readFile`, and Papa
  Parse's delimiter guessing and typing. Rows are taken as typed cells in
  column order.
- `new Date(...)` is not modelled, and neither is the `allData.sort` by
  date. The grid is built in date order already, so the sort has nothing
  to do.
- `calculateDistance` (the haversine distance), the random connection
  probabilities and `createOrganicConnection` use floating-point
  trigonometry and `Math.random`. The mycelium lines keep their end
  points and type, not their curve coordinates or `distance`.
- `animated-network-diagram.js` is not part of this model. It is an
  animation loop whose purpose is drawing.
- Floating point is modelled by `real`: no rounding, NaN or infinities.
- Paths.Path.LineTo: requires a current point. Calling `lineTo` before
  any `moveTo` in the source records a segment from `undefined`.
- Paths.Path.BezierCurveTo: requires a current point, for the same
  reason.
- Hierarchy.Hierarchy: only single-character delimiters are modelled.
- Links.LeavesOf: the list of leaves and its order are taken as given. In
  the source they are `root.leaves()` of the d3 hierarchy, sorted by
  height and then by name, which is part of d3. Any list of built nodes
  is accepted, so the links are stated for whatever leaves the layout
  yields.
- Hierarchy.Builder.Find: enters the name in the map after it finds the
  prefix, where the source does so before. The prefix is strictly
  shorter, so the order cannot be seen. On failure the model leaves the
  builder as it was; in the source the map already holds the name and
  any groups created on the way, but the exception abandons that local
  map, so the difference cannot be seen either.
- Text.Trim: removes ASCII white space, NBSP and the BOM. It does not
  remove the other Unicode space separators that JavaScript's `trim`
  also removes.
- Mycelium.NearbyMeaning: `accept` is a fixed function of the pair. In
  the source each call draws a fresh `Math.random`.
- Rainfall.DemoGrid: the draws of `Math.random` are given as a sequence
  of at least 624 values.
- A coordinate that `parseFloat` cannot read is kept as `NaN`, and a
  missing part of "lat,lng" as `Missing`. Neither is a number.
- A number's `toString` text is a parameter (`numberText`).
