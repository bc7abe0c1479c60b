/**
 Geohash positions and cells (internal/command/geo.go), over exact arithmetic. One
 axis is treated at a time: a coordinate between `min` and `min + size`.
 */
module GeoCells {
  import opened Morton

  const LONGITUDE_MIN := -180.0
  const LONGITUDE_SIZE := 360.0
  const LATITUDE_MIN := -85.05112878
  const LATITUDE_SIZE := 170.10225756

  /** `geoStep`: the bits of one coordinate. */
  const STEP: nat := 26

  /** The number of cells along an axis at a given depth. */
  function Cells(step: nat): nat {
    Shl(1, step)
  }

  /** A coordinate in units of the finest cells (`geohashEncode` before it truncates). */
  function Units(v: real, min: real, size: real): real
    requires size > 0.0
  {
    (v - min) / size * (Cells(STEP) as real)
  }

  function AxisBits(v: real, min: real, size: real): nat
    requires size > 0.0 && min <= v
  {
    ScalePositive(STEP);
    UnitsSign(v, min, size);
    Units(v, min, size).Floor
  }

  /** The middle of a finest cell (`geohashDecode`). */
  function AxisCentre(bits: nat, min: real, size: real): real {
    ScalePositive(STEP);
    var scale := Cells(STEP) as real;
    var low := min + (bits as real / scale) * size;
    var high := min + ((bits + 1) as real / scale) * size;
    (low + high) / 2.0
  }

  lemma {:induction false} ScalePositive(k: nat)
    ensures Shl(1, k) > 0
  {
    if k > 0 { ScalePositive(k - 1); }
  }

  lemma UnitsSign(v: real, min: real, size: real)
    requires size > 0.0 && min <= v
    ensures Units(v, min, size) >= 0.0
  {
    ScalePositive(STEP);
    var q := (v - min) / size;
    assert q >= 0.0;
    MulSign(q, Cells(STEP) as real);
  }

  lemma MulSign(a: real, b: real)
    requires a >= 0.0 && b >= 0.0
    ensures a * b >= 0.0
  {
  }

  /** A cell's middle lies half a unit beyond its number. */
  lemma CentreUnits(bits: nat, min: real, size: real)
    requires size > 0.0
    ensures Units(AxisCentre(bits, min, size), min, size) == bits as real + 0.5
  {
    ScalePositive(STEP);
    var scale := Cells(STEP) as real;
    var x, y := bits as real / scale, (bits + 1) as real / scale;
    Undivided(bits as real, scale);
    Undivided((bits + 1) as real, scale);
    MiddleUnits(x, y, min, size, scale);
    assert AxisCentre(bits, min, size) == ((min + x * size) + (min + y * size)) / 2.0;
    assert (bits + 1) as real == bits as real + 1.0;
  }

  lemma MiddleUnits(x: real, y: real, min: real, size: real, scale: real)
    requires size > 0.0
    ensures (((min + x * size) + (min + y * size)) / 2.0 - min) / size * scale == (x * scale + y * scale) / 2.0
  {
    var half := (x + y) / 2.0;
    SumTimes(x, y, size);
    SumTimes(x, y, scale);
    assert ((min + x * size) + (min + y * size)) / 2.0 - min == half * size;
    Divided(half, size);
  }

  lemma SumTimes(x: real, y: real, z: real)
    ensures x * z + y * z == (x + y) * z && (x + y) / 2.0 * z == (x + y) * z / 2.0
  {
  }

  lemma Divided(a: real, b: real)
    requires b > 0.0
    ensures a * b / b == a
  {
  }

  lemma {:induction false} ShlTimes(n: nat, k: nat)
    ensures Shl(n, k) == n * Shl(1, k)
  {
    if k > 0 {
      ShlTimes(n, k - 1);
      Doubled(n, Shl(1, k - 1));
    }
  }

  lemma {:induction false} Doubled(n: nat, x: nat)
    ensures 2 * (n * x) == n * (2 * x)
  {
  }

  lemma {:induction false} ShlAdds(n: nat, j: nat, k: nat)
    ensures Shl(Shl(n, j), k) == Shl(n, j + k)
    decreases k
  {
    if k > 0 {
      ShlAdds(n, j, k - 1);
    }
  }

  lemma MulLess(a: int, b: int, g: real)
    requires g > 0.0 && a as real * g < b as real * g
    ensures a < b
  {
    if a >= b {
      MulOrder(b, a, g);
    }
  }

  lemma MulOrder(a: int, b: int, g: real)
    requires g > 0.0 && a <= b
    ensures a as real * g <= b as real * g
  {
  }

  /** Where cell `c` of size `g` begins. */
  ghost function Edge(c: int, g: real): real {
    c as real * g
  }

  lemma EdgeNext(c: int, g: real)
    ensures Edge(c + 1, g) == Edge(c, g) + g
  {
    assert (c + 1) as real == c as real + 1.0;
  }

  lemma EdgeOrder(a: int, b: int, g: real)
    requires g > 0.0 && Edge(a, g) < Edge(b, g)
    ensures a < b
  {
    MulLess(a, b, g);
  }

  /** The position lies in cell `c` of size `g`, or at its upper end. */
  ghost predicate Touches(u: real, c: int, g: real) {
    Edge(c, g) <= u <= Edge(c + 1, g)
  }

  /** The position lies inside cell `c`. */
  ghost predicate Inside(p: real, c: int, g: real) {
    Edge(c, g) < p < Edge(c + 1, g)
  }

  ghost predicate Apart(p: real, u: real, g: real) {
    -g <= p - u <= g
  }

  /** Two points at most one cell apart lie in the same cell or in neighbouring ones. */
  lemma Neighbours(c: int, c0: int, p: real, u: real, g: real)
    requires g > 0.0 && Touches(u, c0, g) && Inside(p, c, g) && Apart(p, u, g)
    ensures c0 - 1 <= c <= c0 + 1
  {
    hide Edge;
    EdgeNext(c0 - 1, g);
    EdgeNext(c0 + 1, g);
    EdgeOrder(c0 - 1, c + 1, g);
    EdgeOrder(c, c0 + 2, g);
  }

  /** The cell of a number of units, at `k` bits less depth. */
  lemma CellBounds(b: nat, k: nat)
    ensures Shr(b, k) as real * Shl(1, k) as real <= b as real
    ensures (b + 1) as real <= (Shr(b, k) + 1) as real * Shl(1, k) as real
  {
    hide Shr, Shl;
    var c := Shr(b, k);
    ShrIs(b, k, c);
    ShlTimes(c, k);
    ShlTimes(c + 1, k);
    RealTimes(c, Shl(1, k));
    RealTimes(c + 1, Shl(1, k));
  }

  lemma RealTimes(a: int, b: int)
    ensures (a * b) as real == a as real * b as real
  {
  }

  lemma CellsSplit(step: nat)
    requires step <= STEP
    ensures Cells(STEP) as real == Cells(step) as real * Shl(1, STEP - step) as real
    ensures Cells(step) > 0 && Shl(1, STEP - step) > 0
  {
    hide Shl;
    ShlAdds(1, step, STEP - step);
    ShlTimes(Shl(1, step), STEP - step);
    ScalePositive(step);
    ScalePositive(STEP - step);
    RealTimes(Shl(1, step), Shl(1, STEP - step));
  }

  lemma EdgesRise(a: int, b: int, g: real)
    requires g > 0.0 && a <= b
    ensures Edge(a, g) <= Edge(b, g)
  {
    MulOrder(a, b, g);
  }

  /** The cell the centre of a search lies in (`geoCellCoords`); the upper end of the axis counts as in the last one. */
  function CentreCell(v: real, min: real, size: real, step: nat): (c: nat)
    requires size > 0.0 && min <= v && step <= STEP
    ensures c < Cells(step)
  {
    ScalePositive(step);
    var c := Shr(AxisBits(v, min, size), STEP - step);
    if c >= Cells(step) then Cells(step) - 1 else c
  }

  lemma Clamped(u: real, bits: nat, c: int, cells: nat, g: real)
    requires g > 0.0 && bits as real <= u < bits as real + 1.0 && u <= Edge(cells, g)
    requires Edge(c, g) <= bits as real && (bits + 1) as real <= Edge(c + 1, g)
    ensures Touches(u, if c >= cells then cells - 1 else c, g)
  {
    hide Edge;
    if c >= cells {
      EdgesRise(cells - 1, c, g);
    }
  }

  /** The centre's cell holds its position. */
  lemma CentreBounds(v: real, min: real, size: real, step: nat)
    requires size > 0.0 && min <= v <= min + size && step <= STEP
    ensures Touches(Units(v, min, size), CentreCell(v, min, size, step), Shl(1, STEP - step) as real)
  {
    hide Units, AxisBits, Shr, Shl, Touches;
    var k := STEP - step;
    var bits := AxisBits(v, min, size);
    CellsSplit(step);
    UnitsBound(v, min, size);
    CellBounds(bits, k);
    Clamped(Units(v, min, size), bits, Shr(bits, k), Cells(step), Shl(1, k) as real);
  }

  lemma UnitsBound(v: real, min: real, size: real)
    requires size > 0.0 && min <= v <= min + size
    ensures Units(v, min, size) <= Cells(STEP) as real
    ensures AxisBits(v, min, size) as real <= Units(v, min, size) < AxisBits(v, min, size) as real + 1.0
  {
    ScalePositive(STEP);
    var q := (v - min) / size;
    assert q <= 1.0;
    MulSign(1.0 - q, Cells(STEP) as real);
  }

  /** A stored position in units, `m` times around. */
  ghost function Position(b: nat, m: int): real {
    b as real + 0.5 + m as real * Cells(STEP) as real
  }

  lemma MemberBounds(b: nat, step: nat, m: int)
    requires step <= STEP
    ensures Inside(Position(b, m), Shr(b, STEP - step) + m * Cells(step), Shl(1, STEP - step) as real)
  {
    hide Shl, Shr;
    var k := STEP - step;
    var g := Shl(1, k) as real;
    CellsSplit(step);
    CellBounds(b, k);
    Around(Shr(b, k), m, Cells(step), g);
    Around(Shr(b, k) + 1, m, Cells(step), g);
  }

  lemma Around(c: int, m: int, cells: int, g: real)
    ensures (c + m * cells) as real * g == c as real * g + m as real * (cells as real * g)
  {
    RealTimes(m, cells);
    assert (c + m * cells) as real == c as real + m as real * cells as real;
  }

  /** A stored position lies at most a cell's size from the centre, going `m` times around. */
  ghost predicate Near(v: real, b: nat, min: real, size: real, step: nat, m: int) {
    ScalePositive(step);
    var reach := size / Cells(step) as real;
    -reach <= AxisCentre(b, min, size) + m as real * size - v <= reach
  }

  lemma UnitsApart(v: real, b: nat, min: real, size: real, step: nat, m: int)
    requires size > 0.0 && step <= STEP && Near(v, b, min, size, step, m)
    ensures Apart(Position(b, m), Units(v, min, size), Shl(1, STEP - step) as real)
  {
    hide AxisCentre, Shl;
    CellsSplit(step);
    CentreUnits(b, min, size);
    ApartInUnits(v, AxisCentre(b, min, size), min, size, m as real, Cells(step) as real, Shl(1, STEP - step) as real,
      Cells(STEP) as real);
  }

  lemma ApartInUnits(v: real, c: real, min: real, size: real, m: real, cells: real, g: real, scale: real)
    requires size > 0.0 && cells > 0.0 && g > 0.0 && scale == cells * g
    requires -(size / cells) <= c + m * size - v <= size / cells
    ensures -g <= (c - min) / size * scale + m * scale - (v - min) / size * scale <= g
  {
    var t := (c + m * size - v) / size;
    var x, y := (c - min) / size, (v - min) / size;
    assert t == x + m - y by {
      assert x * size == c - min && y * size == v - min && t * size == c + m * size - v;
      assert (x + m - y) * size == t * size;
    }
    assert t * scale == x * scale + m * scale - y * scale;
    Within(c + m * size - v, size, cells);
    Scaled(t, cells, g);
  }

  lemma Within(d: real, size: real, cells: real)
    requires size > 0.0 && cells > 0.0 && -(size / cells) <= d <= size / cells
    ensures -1.0 <= d / size * cells <= 1.0
  {
    var y := d / size * cells;
    Rescaled(d, size, cells);
    Undivided(size, cells);
    RealOrder(d, size / cells, cells);
    RealOrder(-(size / cells), d, cells);
    Negated(size / cells, cells);
    Cancelled(y, 1.0, size);
    Cancelled(-1.0, y, size);
  }

  lemma Undivided(a: real, b: real)
    requires b > 0.0
    ensures a / b * b == a
  {
  }

  lemma Negated(a: real, b: real)
    ensures -a * b == -(a * b)
  {
  }

  lemma Rescaled(d: real, size: real, cells: real)
    requires size > 0.0
    ensures d / size * cells * size == d * cells
  {
    var t := d / size;
    Undivided(d, size);
    assert t * cells * size == t * size * cells;
  }

  lemma RealOrder(a: real, b: real, c: real)
    requires a <= b && c > 0.0
    ensures a * c <= b * c
  {
    MulSign(b - a, c);
    Distributed(b, a, c);
  }

  lemma Distributed(a: real, b: real, c: real)
    ensures (a - b) * c == a * c - b * c
  {
  }

  lemma Cancelled(a: real, b: real, c: real)
    requires a * c <= b * c && c > 0.0
    ensures a <= b
  {
    Distributed(a, b, c);
    if a > b {
      MulPositive(a - b, c);
      assert false;
    }
  }

  lemma MulPositive(a: real, b: real)
    requires a > 0.0 && b > 0.0
    ensures a * b > 0.0
  {
  }

  lemma Scaled(t: real, cells: real, g: real)
    requires g > 0.0 && -1.0 <= t * cells <= 1.0
    ensures -g <= t * (cells * g) <= g
  {
    MulSign(1.0 - t * cells, g);
    MulSign(1.0 + t * cells, g);
    assert t * (cells * g) == (t * cells) * g;
  }

  /** Such a position lies in the centre's cell or in one next to it. */
  lemma AxisNear(v: real, b: nat, min: real, size: real, step: nat, m: int)
    requires size > 0.0 && min <= v <= min + size && step <= STEP && Near(v, b, min, size, step, m)
    ensures
      var c0 := CentreCell(v, min, size, step);
      c0 - 1 <= Shr(b, STEP - step) + m * Cells(step) <= c0 + 1
  {
    hide Units, Shr, Shl, CentreCell, Touches, Inside, Apart, Position, Near;
    CentreBounds(v, min, size, step);
    MemberBounds(b, step, m);
    UnitsApart(v, b, min, size, step, m);
    ScalePositive(STEP - step);
    Neighbours(Shr(b, STEP - step) + m * Cells(step), CentreCell(v, min, size, step),
      Position(b, m), Units(v, min, size), Shl(1, STEP - step) as real);
  }
}
