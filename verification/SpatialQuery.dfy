/** Box and radius queries over a built grid: every cell between the corner coordinates is looked up
    among the occupied ranges and its entries are filtered.

    Models src/spatial/import/spatial_query.cppm. */
module SpatialQuery {
  import opened Bytes
  import opened SpatialCells
  import opened SpatialIndex
  import opened SpatialBuild

  predicate Intersects(a: Box, b: Box) {
    && a.min.x <= b.max.x && a.max.x >= b.min.x
    && a.min.y <= b.max.y && a.max.y >= b.min.y
    && a.min.z <= b.max.z && a.max.z >= b.min.z
  }

  predicate Inverted(box: Box) {
    box.max.x < box.min.x || box.max.y < box.min.y || box.max.z < box.min.z
  }

  function Larger(a: real, b: real): real {
    if a < b then b else a
  }

  /** Two boxes that are not inverted meet exactly when some point lies in both. */
  lemma IntersectsExactly(a: Box, b: Box)
    requires !Inverted(a) && !Inverted(b)
    ensures Intersects(a, b) <==> exists p :: Contains(a, p) && Contains(b, p)
  {
    if Intersects(a, b) {
      var p := Vec(Larger(a.min.x, b.min.x), Larger(a.min.y, b.min.y), Larger(a.min.z, b.min.z));
      assert Contains(a, p) && Contains(b, p);
    }
  }

  /** Whether a position lies in the box, edges included. */
  predicate InBox(p: Vec, box: Box) {
    && p.x >= box.min.x && p.y >= box.min.y && p.z >= box.min.z
    && p.x <= box.max.x && p.y <= box.max.y && p.z <= box.max.z
  }

  // ---------------------------------------------------------------- what a query must report

  ghost predicate Distinct(sources: seq<nat>) {
    forall i, j :: 0 <= i < j < |sources| ==> sources[i] != sources[j]
  }

  /** Each hit once. */
  ghost predicate ReportsAll(positions: seq<Vec>, hit: Vec -> bool, reported: seq<nat>) {
    && Distinct(reported)
    && forall s: nat :: s in reported <==> s < |positions| && hit(positions[s])
  }

  /** What a query over the cells of a box leaves behind. */
  ghost predicate Answers(g: Grid, positions: seq<Vec>, box: Box, hit: Vec -> bool, reported: seq<nat>) {
    if Intersects(g.bounds, box) then ReportsAll(positions, hit, reported) else reported == []
  }

  // ---------------------------------------------------------------- finding a cell's range

  predicate KeyOrdered(ranges: seq<Range>) {
    forall i, j :: 0 <= i < j < |ranges| ==> ranges[i].key < ranges[j].key
  }

  lemma {:induction false} OccupiedSound(keys: seq<nat>, cells: nat, range: Range)
    requires range in Occupied(keys, cells)
    ensures range.key < cells && range.count > 0
    ensures range == Range(range.key, Below(keys, range.key), |CellEntries(keys, range.key)|)
  {
    hide CellEntries, Below;
    if range in Occupied(keys, cells - 1) {
      OccupiedSound(keys, cells - 1, range);
    }
  }

  lemma {:induction false} OccupiedComplete(keys: seq<nat>, cells: nat, cell: nat)
    requires cell < cells && |CellEntries(keys, cell)| > 0
    ensures Range(cell, Below(keys, cell), |CellEntries(keys, cell)|) in Occupied(keys, cells)
  {
    hide CellEntries, Below;
    if cell < cells - 1 {
      OccupiedComplete(keys, cells - 1, cell);
    }
  }

  lemma {:induction false} OccupiedOrdered(keys: seq<nat>, cells: nat)
    ensures KeyOrdered(Occupied(keys, cells))
  {
    hide CellEntries, Below;
    if cells > 0 {
      OccupiedOrdered(keys, cells - 1);
      var before := Occupied(keys, cells - 1);
      forall i | 0 <= i < |before|
        ensures before[i].key < cells - 1
      {
        OccupiedSound(keys, cells - 1, before[i]);
      }
    }
  }

  /** `find_cell_range`: binary search among the occupied ranges. */
  method FindCellRange(ranges: seq<Range>, key: nat) returns (found: Option<Range>)
    requires KeyOrdered(ranges)
    ensures found.Some? ==> found.value in ranges && found.value.key == key
    ensures found.None? ==> forall i :: 0 <= i < |ranges| ==> ranges[i].key != key
  {
    var low, high := 0, |ranges|;
    while low < high
      invariant 0 <= low <= high <= |ranges|
      invariant forall i :: 0 <= i < low ==> ranges[i].key < key
      invariant forall i :: high <= i < |ranges| ==> ranges[i].key >= key
    {
      var middle := low + (high - low) / 2;
      if ranges[middle].key < key {
        low := middle + 1;
      } else {
        high := middle;
      }
    }
    if low < |ranges| && ranges[low].key == key {
      return Some(ranges[low]);
    }
    found := None;
  }

  /** A cell's stretch of the entries holds exactly the sources of that cell, each once. */
  lemma CellStretch(keys: seq<nat>, ids: seq<u32>, cells: nat, cell: nat)
    requires KeysWithin(keys, cells) && cell < cells
    ensures var entries := Sort(All(keys), ids);
      var begin, count := Below(keys, cell), |CellEntries(keys, cell)|;
      && begin + count <= |entries|
      && entries[begin..begin + count] == Sort(CellEntries(keys, cell), ids)
  {
    DenseIsComparison(keys, ids, cells);
    DensePart(keys, ids, cells, cell);
  }

  lemma {:induction false} DensePart(keys: seq<nat>, ids: seq<u32>, cells: nat, cell: nat)
    requires cell < cells
    ensures var begin, count := Below(keys, cell), |CellEntries(keys, cell)|;
      && begin + count <= |Dense(keys, ids, cells)|
      && Dense(keys, ids, cells)[begin..begin + count] == Sort(CellEntries(keys, cell), ids)
  {
    hide CellEntries, Sort;
    DenseLength(keys, ids, cells - 1);
    SortPermutes(CellEntries(keys, cells - 1), ids);
    var before := Dense(keys, ids, cells - 1);
    if cell < cells - 1 {
      DensePart(keys, ids, cells - 1, cell);
      var begin, count := Below(keys, cell), |CellEntries(keys, cell)|;
      assert Dense(keys, ids, cells)[begin..begin + count] == before[begin..begin + count];
    }
  }

  lemma StretchMember(keys: seq<nat>, ids: seq<u32>, cell: nat, s: nat)
    ensures Entry(cell, s) in Sort(CellEntries(keys, cell), ids) <==> s < |keys| && keys[s] == cell
    ensures forall e :: e in Sort(CellEntries(keys, cell), ids) ==> e.key == cell && e.source < |keys|
  {
    SortMember(CellEntries(keys, cell), ids, Entry(cell, s));
    CellMember(keys, cell, Entry(cell, s));
    forall e
      ensures e in Sort(CellEntries(keys, cell), ids) ==> e.key == cell && e.source < |keys|
    {
      SortMember(CellEntries(keys, cell), ids, e);
      CellMember(keys, cell, e);
    }
  }

  // ---------------------------------------------------------------- visiting cells

  /** The order of the three nested loops. */
  predicate Earlier(c: Coord, x: nat, y: nat, z: nat) {
    c.z < z || (c.z == z && (c.y < y || (c.y == y && c.x < x)))
  }

  predicate Between(low: Coord, c: Coord, high: Coord) {
    low.x <= c.x <= high.x && low.y <= c.y <= high.y && low.z <= c.z <= high.z
  }

  /** The hits of the cells between the corners that come before a point of the loops. */
  ghost predicate Progress(g: Grid, positions: seq<Vec>, hit: Vec -> bool, low: Coord, high: Coord,
                           x: nat, y: nat, z: nat, reported: seq<nat>)
    requires Ready(g)
  {
    && Distinct(reported)
    && forall s: nat :: s in reported <==>
         s < |positions| && hit(positions[s])
         && Between(low, CoordOf(g, positions[s]), high) && Earlier(CoordOf(g, positions[s]), x, y, z)
  }

  /** The hits among a stretch of entries. */
  function Hits(entries: seq<Entry>, positions: seq<Vec>, hit: Vec -> bool): seq<nat> {
    if entries == [] then []
    else
      var last := |entries| - 1;
      var source := entries[last].source;
      Hits(entries[..last], positions, hit) + if source < |positions| && hit(positions[source]) then [source] else []
  }

  function CellHits(g: Grid, positions: seq<Vec>, ids: seq<u32>, coord: Coord, hit: Vec -> bool): seq<nat>
    requires Ready(g)
  {
    Hits(Sort(CellEntries(Keys(g, positions), KeyOf(g, coord)), ids), positions, hit)
  }

  lemma {:induction false} HitsMember(entries: seq<Entry>, positions: seq<Vec>, hit: Vec -> bool, key: nat, s: nat)
    requires forall e :: e in entries ==> e.key == key
    ensures s in Hits(entries, positions, hit) <==> Entry(key, s) in entries && s < |positions| && hit(positions[s])
  {
    if entries != [] {
      var last := |entries| - 1;
      assert entries[last] in entries;
      assert forall e :: e in entries[..last] ==> e in entries;
      HitsMember(entries[..last], positions, hit, key, s);
      assert Entry(key, s) in entries <==> Entry(key, s) in entries[..last] || entries[last] == Entry(key, s);
    }
  }

  lemma {:induction false} InitWithoutRepeats(entries: seq<Entry>)
    requires entries != [] && NoRepeats(entries)
    ensures entries[|entries| - 1] !in entries[..|entries| - 1] && NoRepeats(entries[..|entries| - 1])
  {
    if |entries| > 1 {
      InitWithoutRepeats(entries[1..]);
      var last := |entries| - 1;
      assert entries[..last][1..] == entries[1..][..last - 1];
      assert entries[last] == entries[1..][last - 1];
      assert entries[last] in entries[1..];
    }
  }

  lemma {:induction false} HitsDistinct(entries: seq<Entry>, positions: seq<Vec>, hit: Vec -> bool, key: nat)
    requires NoRepeats(entries) && forall e :: e in entries ==> e.key == key
    ensures Distinct(Hits(entries, positions, hit))
  {
    if entries != [] {
      var last := |entries| - 1;
      assert entries[last] in entries;
      assert forall e :: e in entries[..last] ==> e in entries;
      InitWithoutRepeats(entries);
      HitsDistinct(entries[..last], positions, hit, key);
      HitsMember(entries[..last], positions, hit, key, entries[last].source);
    }
  }

  /** What one cell reports: each of its hits once, and nothing of another cell. */
  lemma CellReports(g: Grid, positions: seq<Vec>, ids: seq<u32>, coord: Coord, hit: Vec -> bool)
    requires Ready(g) && InGrid(g, coord)
    ensures var hits := CellHits(g, positions, ids, coord, hit);
      && Distinct(hits)
      && forall s: nat :: s in hits <==> s < |positions| && hit(positions[s]) && CoordOf(g, positions[s]) == coord
  {
    hide Ready, CoordOf, Sort, CellEntries, NoRepeats, Distinct, Hits;
    var keys, key := Keys(g, positions), KeyOf(g, coord);
    var stretch := Sort(CellEntries(keys, key), ids);
    StretchMember(keys, ids, key, 0);
    CellDistinct(keys, key);
    SortKeepsRepeats(CellEntries(keys, key), ids);
    HitsDistinct(stretch, positions, hit, key);
    KeysMeanCoords(g, positions, coord);
    forall s: nat
      ensures s in CellHits(g, positions, ids, coord, hit)
              <==> s < |positions| && hit(positions[s]) && CoordOf(g, positions[s]) == coord
    {
      StretchMember(keys, ids, key, s);
      HitsMember(stretch, positions, hit, key, s);
    }
  }

  lemma NoHits(positions: seq<Vec>, hit: Vec -> bool)
    ensures Hits([], positions, hit) == []
  {
  }

  lemma NoRange(keys: seq<nat>, ids: seq<u32>, cells: nat, key: nat)
    requires key < cells && forall i :: 0 <= i < |Occupied(keys, cells)| ==> Occupied(keys, cells)[i].key != key
    ensures Sort(CellEntries(keys, key), ids) == []
  {
    if |CellEntries(keys, key)| > 0 {
      OccupiedComplete(keys, cells, key);
    }
  }

  lemma DistinctUnion(a: seq<nat>, b: seq<nat>)
    requires Distinct(a) && Distinct(b) && forall s :: s in a ==> s !in b
    ensures Distinct(a + b) && forall s :: s in a + b <==> s in a || s in b
  {
    forall i, j | 0 <= i < j < |a + b|
      ensures (a + b)[i] != (a + b)[j]
    {
      if i < |a| <= j {
        assert (a + b)[i] in a && (a + b)[j] in b;
      }
    }
  }

  /** One more cell has been visited. */
  lemma ProgressStep(g: Grid, positions: seq<Vec>, ids: seq<u32>, hit: Vec -> bool, low: Coord, high: Coord,
                     x: nat, y: nat, z: nat, reported: seq<nat>)
    requires Ready(g) && InGrid(g, high) && Between(low, Coord(x, y, z), high)
    requires Progress(g, positions, hit, low, high, x, y, z, reported)
    ensures Progress(g, positions, hit, low, high, x + 1, y, z,
                     reported + CellHits(g, positions, ids, Coord(x, y, z), hit))
  {
    hide Ready, CoordOf, CellHits;
    var hits := CellHits(g, positions, ids, Coord(x, y, z), hit);
    CellReports(g, positions, ids, Coord(x, y, z), hit);
    DistinctUnion(reported, hits);
  }

  class Query {
    const g: Grid
    const positions: seq<Vec>
    const ids: seq<u32>
    var reported: seq<nat>

    constructor (g: Grid, positions: seq<Vec>, ids: seq<u32>)
      ensures this.g == g && this.positions == positions && this.ids == ids && reported == []
    {
      this.g, this.positions, this.ids := g, positions, ids;
      reported := [];
    }

    /** One cell: its range is looked up and its entries filtered. */
    method QueryCell(index: Index, coord: Coord, hit: Vec -> bool)
      requires Ready(g) && InGrid(g, coord) && index == SerialIndex(g, positions, ids)
      modifies this
      ensures reported == old(reported) + CellHits(g, positions, ids, coord, hit)
    {
      hide Ready, CoordOf, Sort, CellEntries, Below, All, StatsOf, Occupied, Runs, KeyOrdered, Hits;
      ghost var keys, cells := Keys(g, positions), CellCount(g);
      var key := KeyOf(g, coord);
      KeyThenCoord(g, coord);
      KeysAreCells(g, positions);
      BuildsAgree(keys, ids, cells);
      OccupiedOrdered(keys, cells);
      CellStretch(keys, ids, cells, key);
      ghost var stretch := Sort(CellEntries(keys, key), ids);
      var range := FindCellRange(index.occupied, key);
      if range.None? {
        NoRange(keys, ids, cells, key);
        NoHits(positions, hit);
        return;
      }
      OccupiedSound(keys, cells, range.value);
      SortPermutes(CellEntries(keys, key), ids);
      ScanRange(index.entries, range.value.begin, range.value.count, hit);
    }

    /** The entries of one range, filtered. */
    method ScanRange(entries: seq<Entry>, begin: nat, count: nat, hit: Vec -> bool)
      requires begin + count <= |entries|
      modifies this
      ensures reported == old(reported) + Hits(entries[begin..begin + count], positions, hit)
    {
      ghost var before, stretch := reported, entries[begin..begin + count];
      for k := 0 to count
        invariant reported == before + Hits(stretch[..k], positions, hit)
      {
        assert entries[begin + k] == stretch[k];
        assert stretch[..k + 1][..k] == stretch[..k];
        var source := entries[begin + k].source;
        if source < |positions| && hit(positions[source]) {
          reported := reported + [source];
        }
      }
      assert stretch[..count] == stretch;
    }

    /** `for_each_cell_coordinate` around `QueryCell`. */
    method QueryCells(index: Index, low: Coord, high: Coord, hit: Vec -> bool)
      requires Ready(g) && InGrid(g, high) && index == SerialIndex(g, positions, ids)
      requires low.x <= high.x && low.y <= high.y && low.z <= high.z
      modifies this
      ensures Distinct(reported)
      ensures forall s: nat :: s in reported <==>
                s < |positions| && hit(positions[s]) && Between(low, CoordOf(g, positions[s]), high)
    {
      hide Ready, CoordOf, SerialIndex, CellHits;
      reported := [];
      for z := low.z to high.z + 1
        invariant Progress(g, positions, hit, low, high, low.x, low.y, z, reported)
      {
        for y := low.y to high.y + 1
          invariant Progress(g, positions, hit, low, high, low.x, y, z, reported)
        {
          for x := low.x to high.x + 1
            invariant Progress(g, positions, hit, low, high, x, y, z, reported)
          {
            ProgressStep(g, positions, ids, hit, low, high, x, y, z, reported);
            QueryCell(index, Coord(x, y, z), hit);
          }
        }
      }
    }

    /** Cells are scanned only when the box meets the grid's bounds. */
    method QueryBox(index: Index, box: Box, hit: Vec -> bool)
      requires Ready(g) && index == SerialIndex(g, positions, ids)
      requires !Inverted(box) && forall p :: hit(p) ==> Contains(box, p)
      modifies this
      ensures Answers(g, positions, box, hit, reported)
    {
      reported := [];
      if !Intersects(g.bounds, box) {
        return;
      }
      BetweenCorners(g, box, box.min);
      BetweenCorners(g, box, box.max);
      forall s | 0 <= s < |positions| && hit(positions[s])
        ensures Between(CoordOf(g, box.min), CoordOf(g, positions[s]), CoordOf(g, box.max))
      {
        BetweenCorners(g, box, positions[s]);
      }
      hide Ready, CoordOf, SerialIndex;
      QueryCells(index, CoordOf(g, box.min), CoordOf(g, box.max), hit);
    }

    /** `query_aabb`: an inverted box is refused. What it reports is complete exactly when the box meets the
        grid's bounds or no position lies in it. */
    method QueryAabb(index: Index, box: Box) returns (valid: bool)
      requires Ready(g) && index == SerialIndex(g, positions, ids)
      modifies this
      ensures valid <==> box.min.x <= box.max.x && box.min.y <= box.max.y && box.min.z <= box.max.z
      ensures valid && (exists p :: InBox(p, box) && InBox(p, g.bounds)) ==>
        forall s: nat :: s in reported <==> s < |positions| && InBox(positions[s], box)
      ensures valid && Intersects(g.bounds, box) ==> ReportsAll(positions, p => Contains(box, p), reported)
      ensures valid && !Intersects(g.bounds, box) ==> reported == []
      ensures valid ==> (ReportsAll(positions, p => Contains(box, p), reported) <==>
        Intersects(g.bounds, box) || forall s :: 0 <= s < |positions| ==> !Contains(box, positions[s]))
    {
      if Inverted(box) {
        return false;
      }
      QueryBox(index, box, p => Contains(box, p));
      CompleteExactly(g, positions, box, p => Contains(box, p), reported);
      GridNotInverted(g);
      IntersectsExactly(g.bounds, box);
      if p :| InBox(p, box) && InBox(p, g.bounds) {
        assert Contains(box, p) && Contains(g.bounds, p);
      }
      valid := true;
    }

    /** `query_radius`: a negative radius is refused; the cells of the enclosing box are scanned. What it
        reports is complete exactly when that box meets the grid's bounds or no position lies in the ball. */
    method QueryRadius(index: Index, center: Vec, radius: real) returns (valid: bool)
      requires Ready(g) && index == SerialIndex(g, positions, ids)
      modifies this
      ensures valid <==> radius >= 0.0
      ensures valid && (exists p :: InBox(p, g.bounds) && AxisDistance(p, center) <= radius) ==>
        forall s: nat :: s in reported <==>
          s < |positions| && DistanceSquared(positions[s], center) <= radius * radius
      ensures valid && !(exists p :: InBox(p, g.bounds) && AxisDistance(p, center) <= radius) ==> reported == []
      ensures valid && Intersects(g.bounds, Enclosing(center, radius)) ==>
        ReportsAll(positions, p => WithinRadius(center, radius, p), reported)
      ensures valid && !Intersects(g.bounds, Enclosing(center, radius)) ==> reported == []
      ensures valid ==> (ReportsAll(positions, p => WithinRadius(center, radius, p), reported) <==>
        Intersects(g.bounds, Enclosing(center, radius))
        || forall s :: 0 <= s < |positions| ==> !WithinRadius(center, radius, positions[s]))
    {
      if radius < 0.0 {
        return false;
      }
      forall p | WithinRadius(center, radius, p)
        ensures Contains(Enclosing(center, radius), p)
      {
        BallInBox(center, radius, p);
      }
      QueryBox(index, Enclosing(center, radius), p => WithinRadius(center, radius, p));
      CompleteExactly(g, positions, Enclosing(center, radius), p => WithinRadius(center, radius, p), reported);
      GridNotInverted(g);
      IntersectsExactly(g.bounds, Enclosing(center, radius));
      forall p
        ensures Contains(g.bounds, p) <==> InBox(p, g.bounds)
        ensures Contains(Enclosing(center, radius), p) <==> AxisDistance(p, center) <= radius
      {
        AxisDistanceExactly(p, center, radius);
      }
      valid := true;
    }
  }

  lemma GridNotInverted(g: Grid)
    requires Ready(g)
    ensures !Inverted(g.bounds)
  {
  }

  function Magnitude(x: real): real {
    if x < 0.0 then -x else x
  }

  /** The largest of the distances along the three axes, and the square of the distance itself. */
  function AxisDistance(a: Vec, b: Vec): real {
    Larger(Magnitude(a.x - b.x), Larger(Magnitude(a.y - b.y), Magnitude(a.z - b.z)))
  }

  function DistanceSquared(a: Vec, b: Vec): real {
    (a.x - b.x) * (a.x - b.x) + (a.y - b.y) * (a.y - b.y) + (a.z - b.z) * (a.z - b.z)
  }

  lemma AxisDistanceExactly(p: Vec, center: Vec, radius: real)
    ensures Contains(Enclosing(center, radius), p) <==> AxisDistance(p, center) <= radius
  {
  }

  lemma KeysMeanCoords(g: Grid, positions: seq<Vec>, coord: Coord)
    requires Ready(g) && InGrid(g, coord)
    ensures forall s :: 0 <= s < |positions| ==>
      (Keys(g, positions)[s] == KeyOf(g, coord) <==> CoordOf(g, positions[s]) == coord)
  {
    hide Ready;
    forall s | 0 <= s < |positions| && Keys(g, positions)[s] == KeyOf(g, coord)
      ensures CoordOf(g, positions[s]) == coord
    {
      KeyInjective(g, CoordOf(g, positions[s]), coord);
    }
  }

  function Enclosing(center: Vec, radius: real): Box {
    Box(Vec(center.x - radius, center.y - radius, center.z - radius),
        Vec(center.x + radius, center.y + radius, center.z + radius))
  }

  predicate WithinRadius(center: Vec, radius: real, p: Vec) {
    var x, y, z := p.x - center.x, p.y - center.y, p.z - center.z;
    x * x + y * y + z * z <= radius * radius
  }

  lemma SquaresOrder(a: real, b: real)
    requires 0.0 <= a < b
    ensures a * a < b * b
  {
    var less, more := b - a, b + a;
    MultiplyStrict(0.0, less, more);
    assert less * more == b * b - a * a;
  }

  lemma RootBound(x: real, rest: real, radius: real)
    requires radius >= 0.0 && rest >= 0.0 && x * x + rest <= radius * radius
    ensures -radius <= x <= radius
  {
    if x > radius {
      SquaresOrder(radius, x);
    }
    var opposite := -x;
    assert opposite * opposite == x * x;
    if opposite > radius {
      SquaresOrder(radius, opposite);
    }
  }

  lemma BallInBox(center: Vec, radius: real, p: Vec)
    requires radius >= 0.0 && WithinRadius(center, radius, p)
    ensures Contains(Enclosing(center, radius), p)
  {
    var x, y, z := p.x - center.x, p.y - center.y, p.z - center.z;
    assert x * x >= 0.0 && y * y >= 0.0 && z * z >= 0.0;
    RootBound(x, y * y + z * z, radius);
    RootBound(y, x * x + z * z, radius);
    RootBound(z, x * x + y * y, radius);
  }

  // ---------------------------------------------------------------- what the early return misses

  /** An answer is complete exactly when the box met the grid's bounds or nothing was to be found; positions
      out of bounds are filed in edge cells but not found by a box beyond the bounds. */
  lemma CompleteExactly(g: Grid, positions: seq<Vec>, box: Box, hit: Vec -> bool, reported: seq<nat>)
    requires Answers(g, positions, box, hit, reported)
    ensures ReportsAll(positions, hit, reported) <==>
      Intersects(g.bounds, box) || forall s :: 0 <= s < |positions| ==> !hit(positions[s])
  {
    if !Intersects(g.bounds, box) && ReportsAll(positions, hit, reported) {
      forall s | 0 <= s < |positions|
        ensures !hit(positions[s])
      {
        assert s !in reported;
      }
    }
  }

  /** What an answer misses lies out of bounds, always. */
  lemma OnlyOutOfBoundsMissed(g: Grid, positions: seq<Vec>, box: Box, hit: Vec -> bool, reported: seq<nat>, s: nat)
    requires Answers(g, positions, box, hit, reported) && forall p :: hit(p) ==> Contains(box, p)
    requires s < |positions| && hit(positions[s]) && s !in reported
    ensures !Contains(g.bounds, positions[s]) && !Intersects(g.bounds, box)
  {
    assert Contains(box, positions[s]);
  }

  /** In bounds, nothing is ever missed, by a box or by a ball. */
  lemma InBoundsAlwaysComplete(g: Grid, positions: seq<Vec>, box: Box, hit: Vec -> bool, reported: seq<nat>)
    requires forall s :: 0 <= s < |positions| ==> Contains(g.bounds, positions[s])
    requires Answers(g, positions, box, hit, reported) && forall p :: hit(p) ==> Contains(box, p)
    ensures ReportsAll(positions, hit, reported)
  {
    CompleteExactly(g, positions, box, hit, reported);
    forall s | 0 <= s < |positions| && hit(positions[s])
      ensures Intersects(g.bounds, box)
    {
      assert Contains(box, positions[s]) && Contains(g.bounds, positions[s]);
    }
  }

  /** A position one cell beyond a unit grid. */
  const OUTSIDE := Vec(2.5, 0.5, 0.5)

  const UNIT_GRID := Grid(Box(Vec(0.0, 0.0, 0.0), Vec(1.0, 1.0, 1.0)), 1.0, Coord(1, 1, 1))

  lemma UnitGridIsReady()
    ensures Ready(UNIT_GRID)
  {
    assert (-1.0).Floor == -1;
  }

  /** Whatever answers a box around it, the position is not reported. */
  lemma OutOfBoundsIsMissed(reported: seq<nat>)
    requires var box := Box(Vec(2.0, 0.0, 0.0), Vec(3.0, 1.0, 1.0));
      Answers(UNIT_GRID, [OUTSIDE], box, p => Contains(box, p), reported)
    ensures var box := Box(Vec(2.0, 0.0, 0.0), Vec(3.0, 1.0, 1.0));
      Contains(box, OUTSIDE) && !Inverted(box) && !ReportsAll([OUTSIDE], p => Contains(box, p), reported)
  {
    var box := Box(Vec(2.0, 0.0, 0.0), Vec(3.0, 1.0, 1.0));
    CompleteExactly(UNIT_GRID, [OUTSIDE], box, p => Contains(box, p), reported);
    assert Contains(box, [OUTSIDE][0]);
  }

  /** Nor is it by a ball around it. */
  lemma OutOfBoundsBallIsMissed(reported: seq<nat>)
    requires Answers(UNIT_GRID, [OUTSIDE], Enclosing(OUTSIDE, 0.5), p => WithinRadius(OUTSIDE, 0.5, p), reported)
    ensures WithinRadius(OUTSIDE, 0.5, OUTSIDE) && !ReportsAll([OUTSIDE], p => WithinRadius(OUTSIDE, 0.5, p), reported)
  {
    CompleteExactly(UNIT_GRID, [OUTSIDE], Enclosing(OUTSIDE, 0.5), p => WithinRadius(OUTSIDE, 0.5, p), reported);
    assert WithinRadius(OUTSIDE, 0.5, [OUTSIDE][0]);
  }

  /** Both at once, as the queries themselves run: neither call reports the position it was asked for. */
  method MissOutside() returns (boxed: seq<nat>, balled: seq<nat>)
    ensures boxed == [] && balled == []
  {
    UnitGridIsReady();
    var query := new Query(UNIT_GRID, [OUTSIDE], []);
    var index := SerialIndex(UNIT_GRID, [OUTSIDE], []);
    var _ := query.QueryAabb(index, Box(Vec(2.0, 0.0, 0.0), Vec(3.0, 1.0, 1.0)));
    boxed := query.reported;
    var _ := query.QueryRadius(index, OUTSIDE, 0.5);
    balled := query.reported;
  }
}
