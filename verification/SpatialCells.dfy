/** The bounded uniform grid: how positions map to cells, and cells to keys. Floats are reals here.

    Models the settings, coordinate and key logic of src/spatial/src/spatial_build.cpp. */
module SpatialCells {
  import opened Arithmetic

  datatype Vec = Vec(x: real, y: real, z: real)
  datatype Box = Box(min: Vec, max: Vec)
  datatype Coord = Coord(x: nat, y: nat, z: nat)

  const I32_MAX: nat := 0x7FFF_FFFF
  const CELL_KEY_MAX: nat := 0xFFFF_FFFF_FFFF_FFFF

  datatype Grid = Grid(bounds: Box, cellSize: real, dims: Coord)

  predicate Contains(box: Box, p: Vec) {
    && box.min.x <= p.x <= box.max.x
    && box.min.y <= p.y <= box.max.y
    && box.min.z <= p.z <= box.max.z
  }

  predicate ValidSettings(bounds: Box, cellSize: real) {
    bounds.max.x > bounds.min.x && bounds.max.y > bounds.min.y && bounds.max.z > bounds.min.z && cellSize > 0.0
  }

  // ---------------------------------------------------------------- dimensions

  function Ceiling(value: real): int {
    -((-value).Floor)
  }

  /** The number of cells along an axis. */
  function Dimension(min: real, max: real, cellSize: real): int
    requires cellSize > 0.0
  {
    Ceiling((max - min) / cellSize)
  }

  datatype Resized = Rejected | Sized(grid: Grid)

  /** `resize_spatial_grid`: the grid, unless a dimension or the number of keys is out of range. */
  function Resize(bounds: Box, cellSize: real): Resized {
    if !ValidSettings(bounds, cellSize) then Rejected
    else
      var x, y, z := Dimension(bounds.min.x, bounds.max.x, cellSize), Dimension(bounds.min.y, bounds.max.y, cellSize),
                     Dimension(bounds.min.z, bounds.max.z, cellSize);
      if !(0 < x <= I32_MAX && 0 < y <= I32_MAX && 0 < z <= I32_MAX) then Rejected
      else if y > CELL_KEY_MAX / x || z > CELL_KEY_MAX / (x * y) then Rejected
      else Sized(Grid(bounds, cellSize, Coord(x, y, z)))
  }

  /** A grid as resizing leaves it. */
  ghost predicate Ready(g: Grid) {
    && ValidSettings(g.bounds, g.cellSize)
    && g.dims.x > 0 && g.dims.y > 0 && g.dims.z > 0
    && g.dims.x == Dimension(g.bounds.min.x, g.bounds.max.x, g.cellSize)
    && g.dims.y == Dimension(g.bounds.min.y, g.bounds.max.y, g.cellSize)
    && g.dims.z == Dimension(g.bounds.min.z, g.bounds.max.z, g.cellSize)
  }

  function CellCount(g: Grid): nat {
    g.dims.x * g.dims.y * g.dims.z
  }

  lemma CapacityFits(x: nat, y: nat, z: nat)
    requires x > 0 && y > 0 && y <= CELL_KEY_MAX / x && z <= CELL_KEY_MAX / (x * y)
    ensures x * y * z <= CELL_KEY_MAX
  {
    var plane := x * y;
    assert plane > 0;
    assert plane * z <= plane * (CELL_KEY_MAX / plane) <= CELL_KEY_MAX;
  }

  /** The capacity test is exact: every key of a resized grid fits the key type. */
  lemma ResizedIsReady(bounds: Box, cellSize: real)
    requires Resize(bounds, cellSize).Sized?
    ensures Ready(Resize(bounds, cellSize).grid) && CellCount(Resize(bounds, cellSize).grid) <= CELL_KEY_MAX
  {
    hide Dimension, ValidSettings;
    var g := Resize(bounds, cellSize).grid;
    assert Ready(g);
    var x, y, z := g.dims.x, g.dims.y, g.dims.z;
    assert y <= CELL_KEY_MAX / x && z <= CELL_KEY_MAX / (x * y);
    CapacityFits(x, y, z);
    assert CellCount(g) == x * y * z;
  }

  lemma ScaledUp(low: real, q: real, high: real, value: real, cellSize: real)
    requires low < q <= high && cellSize > 0.0 && q * cellSize == value
    ensures low * cellSize < value <= high * cellSize
  {
    MultiplyStrict(low, q, cellSize);
    MultiplyOrder(q, high, cellSize);
  }

  lemma CeilingOfQuotient(value: real, cellSize: real)
    requires cellSize > 0.0
    ensures var n := Ceiling(value / cellSize);
      (n - 1) as real * cellSize < value <= n as real * cellSize
  {
    var q := value / cellSize;
    ScaledUp((Ceiling(q) - 1) as real, q, Ceiling(q) as real, value, cellSize);
  }

  /** The number of cells along an axis is the one whose last cell, and no earlier one, reaches the end. */
  lemma DimensionExactly(min: real, max: real, cellSize: real, n: int)
    requires cellSize > 0.0
    ensures Dimension(min, max, cellSize) == n <==>
      (n - 1) as real * cellSize < max - min <= n as real * cellSize
  {
    var d := Dimension(min, max, cellSize);
    CeilingOfQuotient(max - min, cellSize);
    if (n - 1) as real * cellSize < max - min <= n as real * cellSize {
      NotEarlier(d, n, max - min, cellSize);
      NotEarlier(n, d, max - min, cellSize);
    }
  }

  lemma NotEarlier(a: int, b: int, value: real, cellSize: real)
    requires cellSize > 0.0 && value <= a as real * cellSize && (b - 1) as real * cellSize < value
    ensures b <= a
  {
    if a < b {
      MultiplyOrder(a as real, (b - 1) as real, cellSize);
    }
  }

  /** A grid is resized exactly when its bounds and cell size are positive, each dimension is a positive 31-bit
      number, and the cells are at most as many as there are 64-bit keys. */
  lemma ResizedExactly(bounds: Box, cellSize: real)
    ensures Resize(bounds, cellSize).Sized? <==>
      && bounds.min.x < bounds.max.x && bounds.min.y < bounds.max.y && bounds.min.z < bounds.max.z
      && cellSize > 0.0
      && var x, y, z := Dimension(bounds.min.x, bounds.max.x, cellSize),
                        Dimension(bounds.min.y, bounds.max.y, cellSize),
                        Dimension(bounds.min.z, bounds.max.z, cellSize);
      && 0 < x <= 0x7FFF_FFFF && 0 < y <= 0x7FFF_FFFF && 0 < z <= 0x7FFF_FFFF
      && x * y * z <= 0xFFFF_FFFF_FFFF_FFFF
  {
    hide Dimension;
    if ValidSettings(bounds, cellSize) {
      var x, y, z := Dimension(bounds.min.x, bounds.max.x, cellSize), Dimension(bounds.min.y, bounds.max.y, cellSize),
                     Dimension(bounds.min.z, bounds.max.z, cellSize);
      if 0 < x && 0 < y && 0 < z {
        CapacityExactly(x, y, z);
      }
    }
  }

  lemma CapacityExactly(x: nat, y: nat, z: nat)
    requires x > 0 && y > 0 && z > 0
    ensures y <= CELL_KEY_MAX / x && (x * y > 0) && z <= CELL_KEY_MAX / (x * y) <==> x * y * z <= CELL_KEY_MAX
  {
    ProductPositive(x, y);
    var plane := x * y;
    if y <= CELL_KEY_MAX / x && z <= CELL_KEY_MAX / plane {
      CapacityFits(x, y, z);
    }
    if plane * z <= CELL_KEY_MAX {
      ProductOrder(1, z, plane);
      FitsQuotient(plane, z);
      FitsQuotient(x, y);
    }
  }

  lemma FitsQuotient(a: nat, b: nat)
    requires a > 0 && a * b <= CELL_KEY_MAX
    ensures b <= CELL_KEY_MAX / a
  {
    var q := CELL_KEY_MAX / a;
    assert q * a + CELL_KEY_MAX % a == CELL_KEY_MAX;
    if b > q {
      ProductOrder(q + 1, b, a);
      assert false;
    }
  }

  // ---------------------------------------------------------------- one axis

  function ClampAxis(value: real, min: real, cellSize: real, dimension: nat): (cell: nat)
    requires cellSize > 0.0 && dimension > 0
    ensures cell < dimension
  {
    var cell := ((value - min) / cellSize).Floor;
    if cell <= 0 then 0 else if cell >= dimension - 1 then dimension - 1 else cell
  }

  lemma Scaled(low: real, q: real, high: real, value: real, cellSize: real)
    requires low <= q < high && cellSize > 0.0 && q * cellSize == value
    ensures low * cellSize <= value < high * cellSize
  {
    MultiplyOrder(low, q, cellSize);
    MultiplyStrict(q, high, cellSize);
  }

  lemma FloorOfQuotient(value: real, cellSize: real)
    requires cellSize > 0.0
    ensures var cell := (value / cellSize).Floor;
      cell as real * cellSize <= value < (cell + 1) as real * cellSize
  {
    var q := value / cellSize;
    Scaled(q.Floor as real, q, (q.Floor + 1) as real, value, cellSize);
  }

  lemma MultiplyOrder(a: real, b: real, c: real)
    requires a <= b && c >= 0.0
    ensures a * c <= b * c
  {
    assert (b - a) * c >= 0.0;
  }

  lemma MultiplyStrict(a: real, b: real, c: real)
    requires a < b && c > 0.0
    ensures a * c < b * c
  {
    assert (b - a) * c > 0.0;
  }

  /** A larger value never maps to a smaller cell. */
  lemma ClampMonotone(v: real, w: real, min: real, cellSize: real, dimension: nat)
    requires cellSize > 0.0 && dimension > 0 && v <= w
    ensures ClampAxis(v, min, cellSize, dimension) <= ClampAxis(w, min, cellSize, dimension)
  {
    var a, b := ((v - min) / cellSize).Floor, ((w - min) / cellSize).Floor;
    if a > b {
      FloorOfQuotient(v - min, cellSize);
      FloorOfQuotient(w - min, cellSize);
      MultiplyOrder((b + 1) as real, a as real, cellSize);
      assert false;
    }
  }

  /** The last cell reaches the upper bound, even when it is cut short there. */
  lemma DimensionCovers(min: real, max: real, cellSize: real)
    requires cellSize > 0.0
    ensures max <= min + Dimension(min, max, cellSize) as real * cellSize
  {
    var q := (max - min) / cellSize;
    assert q <= Ceiling(q) as real;
    MultiplyOrder(q, Ceiling(q) as real, cellSize);
    assert q * cellSize == max - min;
  }

  function CellLow(min: real, cellSize: real, cell: nat): real {
    min + cell as real * cellSize
  }

  function CellHigh(min: real, max: real, cellSize: real, cell: nat): real {
    var high := CellLow(min, cellSize, cell) + cellSize;
    if high < max then high else max
  }

  /** An in-bounds value lies within the closed bounds of its cell. */
  lemma InsideItsCell(value: real, min: real, max: real, cellSize: real)
    requires cellSize > 0.0 && min <= value <= max && Dimension(min, max, cellSize) > 0
    ensures var cell := ClampAxis(value, min, cellSize, Dimension(min, max, cellSize));
      CellLow(min, cellSize, cell) <= value <= CellHigh(min, max, cellSize, cell)
  {
    var dimension := Dimension(min, max, cellSize);
    var raw := ((value - min) / cellSize).Floor;
    var cell := ClampAxis(value, min, cellSize, dimension);
    FloorOfQuotient(value - min, cellSize);
    DimensionCovers(min, max, cellSize);
    hide Dimension;
    NextCell(cell, cellSize);
    if raw > cell {
      MultiplyOrder(cell as real, raw as real, cellSize);
      assert cell == dimension - 1;
    } else if raw < 0 {
      MultiplyOrder((raw + 1) as real, 0.0, cellSize);
    }
  }

  lemma NextCell(cell: int, cellSize: real)
    ensures (cell + 1) as real * cellSize == cell as real * cellSize + cellSize
  {
  }

  /** Along an axis the closed cells tile the bounds: the first begins and the last ends with them, and each
      ends where the next begins. */
  lemma CellsTile(min: real, max: real, cellSize: real, cell: nat)
    requires cellSize > 0.0 && cell < Dimension(min, max, cellSize)
    ensures CellLow(min, cellSize, 0) == min
    ensures CellHigh(min, max, cellSize, cell)
         == if cell + 1 < Dimension(min, max, cellSize) then CellLow(min, cellSize, cell + 1) else max
    ensures CellLow(min, cellSize, cell + 1) - CellLow(min, cellSize, cell) == cellSize
  {
    var n := Dimension(min, max, cellSize);
    DimensionExactly(min, max, cellSize, n);
    assert (cell + 1) as real * cellSize == cell as real * cellSize + cellSize;
    if cell + 1 < n {
      MultiplyOrder((cell + 1) as real, (n - 1) as real, cellSize);
    }
  }

  // ---------------------------------------------------------------- positions and keys

  function CoordOf(g: Grid, p: Vec): Coord
    requires Ready(g)
  {
    Coord(ClampAxis(p.x, g.bounds.min.x, g.cellSize, g.dims.x),
          ClampAxis(p.y, g.bounds.min.y, g.cellSize, g.dims.y),
          ClampAxis(p.z, g.bounds.min.z, g.cellSize, g.dims.z))
  }

  predicate InGrid(g: Grid, c: Coord) {
    c.x < g.dims.x && c.y < g.dims.y && c.z < g.dims.z
  }

  function ClampCoord(g: Grid, x: int, y: int, z: int): (c: Coord)
    requires Ready(g)
    ensures InGrid(g, c)
    ensures 0 <= x && 0 <= y && 0 <= z && InGrid(g, Coord(x, y, z)) ==> c == Coord(x, y, z)
  {
    Coord(ClampIndex(x, g.dims.x), ClampIndex(y, g.dims.y), ClampIndex(z, g.dims.z))
  }

  function ClampIndex(i: int, dimension: nat): (c: nat)
    requires dimension > 0
    ensures c < dimension && (0 <= i < dimension ==> c == i)
  {
    if i < 0 then 0 else if i > dimension - 1 then dimension - 1 else i
  }

  function KeyOf(g: Grid, c: Coord): nat
    requires Ready(g)
  {
    var clamped := ClampCoord(g, c.x, c.y, c.z);
    clamped.x + clamped.y * g.dims.x + clamped.z * g.dims.x * g.dims.y
  }

  function CoordFromKey(g: Grid, key: nat): Coord
    requires Ready(g)
  {
    var plane := g.dims.x * g.dims.y;
    ProductPositive(g.dims.x, g.dims.y);
    var rest := key % plane;
    ClampCoord(g, rest % g.dims.x, rest / g.dims.x, key / plane)
  }

  function KeyFor(g: Grid, p: Vec): nat
    requires Ready(g)
  {
    KeyOf(g, CoordOf(g, p))
  }

  lemma RowBelowPlane(x: nat, y: nat, dx: nat, dy: nat)
    requires x < dx && y < dy
    ensures x + y * dx < dx * dy
  {
    ProductOrder(y + 1, dy, dx);
  }

  lemma RearrangeKey(x: nat, y: nat, z: nat, dx: nat, dy: nat)
    ensures x + y * dx + z * dx * dy == z * (dx * dy) + (y * dx + x)
  {
    assert z * dx * dy == z * (dx * dy);
  }

  /** Key and in-range coordinate determine each other. */
  lemma KeyThenCoord(g: Grid, c: Coord)
    requires Ready(g) && InGrid(g, c)
    ensures KeyOf(g, c) < CellCount(g)
    ensures CoordFromKey(g, KeyOf(g, c)) == c
  {
    hide Dimension, ValidSettings;
    var dx, dy := g.dims.x, g.dims.y;
    RowBelowPlane(c.x, c.y, dx, dy);
    RearrangeKey(c.x, c.y, c.z, dx, dy);
    DivideExactly(c.z, c.y * dx + c.x, dx * dy);
    DivideExactly(c.y, c.x, dx);
    ProductOrder(c.z + 1, g.dims.z, dx * dy);
    assert (c.z + 1) * (dx * dy) == c.z * (dx * dy) + dx * dy;
    assert g.dims.z * (dx * dy) == CellCount(g);
  }

  lemma DivideBelow(key: nat, a: nat, b: nat)
    requires b > 0 && key < a * b
    ensures key / b < a
  {
    assert key / b * b <= key;
    if key / b >= a {
      ProductOrder(a, key / b, b);
      assert false;
    }
  }

  lemma KeyParts(key: nat, dx: nat, dy: nat, dz: nat)
    requires dx > 0 && dy > 0 && key < dz * (dx * dy)
    ensures dx * dy > 0
    ensures var rest := key % (dx * dy);
      && rest % dx < dx && rest / dx < dy && key / (dx * dy) < dz
      && rest % dx + rest / dx * dx + key / (dx * dy) * dx * dy == key
  {
    ProductPositive(dx, dy);
    var plane := dx * dy;
    var rest := key % plane;
    DivideBelow(key, dz, plane);
    DivideBelow(rest, dy, dx);
    RearrangeKey(rest % dx, rest / dx, key / plane, dx, dy);
    assert rest / dx * dx + rest % dx == rest;
    assert key / plane * plane + rest == key;
  }

  lemma CoordThenKey(g: Grid, key: nat)
    requires Ready(g) && key < CellCount(g)
    ensures InGrid(g, CoordFromKey(g, key)) && KeyOf(g, CoordFromKey(g, key)) == key
  {
    hide Dimension, ValidSettings;
    assert CellCount(g) == g.dims.z * (g.dims.x * g.dims.y);
    KeyParts(key, g.dims.x, g.dims.y, g.dims.z);
  }

  /** Equal keys of in-range coordinates mean equal coordinates. */
  lemma KeyInjective(g: Grid, a: Coord, b: Coord)
    requires Ready(g) && InGrid(g, a) && InGrid(g, b) && KeyOf(g, a) == KeyOf(g, b)
    ensures a == b
  {
    KeyThenCoord(g, a);
    KeyThenCoord(g, b);
  }

  /** The closed box of a cell. */
  function CellBounds(g: Grid, c: Coord): Box {
    Box(Vec(CellLow(g.bounds.min.x, g.cellSize, c.x), CellLow(g.bounds.min.y, g.cellSize, c.y),
            CellLow(g.bounds.min.z, g.cellSize, c.z)),
        Vec(CellHigh(g.bounds.min.x, g.bounds.max.x, g.cellSize, c.x),
            CellHigh(g.bounds.min.y, g.bounds.max.y, g.cellSize, c.y),
            CellHigh(g.bounds.min.z, g.bounds.max.z, g.cellSize, c.z)))
  }

  lemma PositionInItsCell(g: Grid, p: Vec)
    requires Ready(g) && Contains(g.bounds, p)
    ensures Contains(CellBounds(g, CoordOf(g, p)), p)
  {
    InsideItsCell(p.x, g.bounds.min.x, g.bounds.max.x, g.cellSize);
    InsideItsCell(p.y, g.bounds.min.y, g.bounds.max.y, g.cellSize);
    InsideItsCell(p.z, g.bounds.min.z, g.bounds.max.z, g.cellSize);
  }

  /** Whatever lies in a box, in or out of the grid's bounds, maps between the corners' coordinates. */
  lemma BetweenCorners(g: Grid, box: Box, p: Vec)
    requires Ready(g) && Contains(box, p)
    ensures var low, c, high := CoordOf(g, box.min), CoordOf(g, p), CoordOf(g, box.max);
      && InGrid(g, c)
      && low.x <= c.x <= high.x && low.y <= c.y <= high.y && low.z <= c.z <= high.z
  {
    ClampMonotone(box.min.x, p.x, g.bounds.min.x, g.cellSize, g.dims.x);
    ClampMonotone(p.x, box.max.x, g.bounds.min.x, g.cellSize, g.dims.x);
    ClampMonotone(box.min.y, p.y, g.bounds.min.y, g.cellSize, g.dims.y);
    ClampMonotone(p.y, box.max.y, g.bounds.min.y, g.cellSize, g.dims.y);
    ClampMonotone(box.min.z, p.z, g.bounds.min.z, g.cellSize, g.dims.z);
    ClampMonotone(p.z, box.max.z, g.bounds.min.z, g.cellSize, g.dims.z);
  }
}
