/**
 * Grid-to-region area weighting: the NUTS region table filter, the square
 * cell built around each grid point, the lon-major enumeration of grid
 * points, and the per-region pipeline that turns gridded climate rows into
 * area-weighted averages per time step.
 *
 * Geometry is an input: for every region and grid cell, whether they
 * intersect, the cell's area and the area of their intersection come from
 * the geometry engine. Rounding of coordinates is an input too (a key
 * function applied to each coordinate); the weighting is done in exact reals.
 */
module Geometries {
  import opened Wrappers
  import opened Sums

  // ------------------------------------------------------------ readNuts

  /** One row of the NUTS table: identifier, LEVL_CODE and CNTR_CODE. */
  datatype NutsRegion = NutsRegion(nutsId: string, level: int, country: string)

  predicate Kept(x: NutsRegion, levels: seq<int>, countries: Option<seq<string>>)
  {
    x.level in levels && (countries.None? || x.country in countries.value)
  }

  /** The rows whose level is one of `levels`, in table order. */
  function SelectLevels(shp: seq<NutsRegion>, levels: seq<int>): (r: seq<NutsRegion>)
    ensures forall x :: x in r <==> x in shp && x.level in levels
  {
    if shp == [] then []
    else (if shp[0].level in levels then [shp[0]] else []) + SelectLevels(shp[1..], levels)
  }

  /** The rows whose country is one of `countries`, in table order. */
  function SelectCountries(shp: seq<NutsRegion>, countries: seq<string>): (r: seq<NutsRegion>)
    ensures forall x :: x in r <==> x in shp && x.country in countries
  {
    if shp == [] then []
    else (if shp[0].country in countries then [shp[0]] else []) + SelectCountries(shp[1..], countries)
  }

  /** readNuts after the file is read: the level filter, then the optional country filter. */
  function ReadNuts(shp: seq<NutsRegion>, levels: seq<int>, countries: Option<seq<string>>): (r: seq<NutsRegion>)
    ensures forall x :: x in r <==> x in shp && Kept(x, levels, countries)
  {
    var byLevel := SelectLevels(shp, levels);
    if countries.None? then byLevel else SelectCountries(byLevel, countries.value)
  }

  /** Reference definition: one pass keeping exactly the rows that pass both tests. */
  function KeptRows(shp: seq<NutsRegion>, levels: seq<int>, countries: Option<seq<string>>): seq<NutsRegion>
  {
    if shp == [] then []
    else (if Kept(shp[0], levels, countries) then [shp[0]] else []) + KeptRows(shp[1..], levels, countries)
  }

  lemma {:induction false} SelectCountriesOfLevels(shp: seq<NutsRegion>, levels: seq<int>, countries: seq<string>)
    ensures SelectCountries(SelectLevels(shp, levels), countries) == KeptRows(shp, levels, Some(countries))
  {
    if shp != [] {
      SelectCountriesOfLevels(shp[1..], levels, countries);
      var head := if shp[0].level in levels then [shp[0]] else [];
      SelectCountriesConcat(head, SelectLevels(shp[1..], levels), countries);
    }
  }

  lemma {:induction false} SelectLevelsIsKept(shp: seq<NutsRegion>, levels: seq<int>)
    ensures SelectLevels(shp, levels) == KeptRows(shp, levels, None)
  {
    if shp != [] {
      SelectLevelsIsKept(shp[1..], levels);
    }
  }

  lemma {:induction false} SelectCountriesConcat(a: seq<NutsRegion>, b: seq<NutsRegion>, countries: seq<string>)
    ensures SelectCountries(a + b, countries) == SelectCountries(a, countries) + SelectCountries(b, countries)
  {
    if a == [] {
      assert a + b == b;
    } else {
      var head := if a[0].country in countries then [a[0]] else [];
      assert (a + b)[0] == a[0] && (a + b)[1..] == a[1..] + b;
      SelectCountriesConcat(a[1..], b, countries);
      Regrouped(head, SelectCountries(a[1..], countries), SelectCountries(b, countries));
    }
  }

  /** The two successive filters keep the same rows, in the same order, as the one-pass filter. */
  lemma ReadNutsIsOnePass(shp: seq<NutsRegion>, levels: seq<int>, countries: Option<seq<string>>)
    ensures ReadNuts(shp, levels, countries) == KeptRows(shp, levels, countries)
  {
    if countries.None? {
      SelectLevelsIsKept(shp, levels);
    } else {
      SelectCountriesOfLevels(shp, levels, countries.value);
    }
  }

  lemma {:induction false} KeptRowsConcat(a: seq<NutsRegion>, b: seq<NutsRegion>, levels: seq<int>, countries: Option<seq<string>>)
    ensures KeptRows(a + b, levels, countries) == KeptRows(a, levels, countries) + KeptRows(b, levels, countries)
  {
    if a == [] {
      assert a + b == b;
    } else {
      var head := if Kept(a[0], levels, countries) then [a[0]] else [];
      assert (a + b)[0] == a[0] && (a + b)[1..] == a[1..] + b;
      KeptRowsConcat(a[1..], b, levels, countries);
      Regrouped(head, KeptRows(a[1..], levels, countries), KeptRows(b, levels, countries));
    }
  }

  /** Relative order is preserved: filtering a table split in two filters each part in place. */
  lemma ReadNutsConcat(a: seq<NutsRegion>, b: seq<NutsRegion>, levels: seq<int>, countries: Option<seq<string>>)
    ensures ReadNuts(a + b, levels, countries) == ReadNuts(a, levels, countries) + ReadNuts(b, levels, countries)
  {
    ReadNutsIsOnePass(a + b, levels, countries);
    ReadNutsIsOnePass(a, levels, countries);
    ReadNutsIsOnePass(b, levels, countries);
    KeptRowsConcat(a, b, levels, countries);
  }

  lemma {:induction false} KeptRowsOfKept(shp: seq<NutsRegion>, levels: seq<int>, countries: Option<seq<string>>)
    ensures KeptRows(KeptRows(shp, levels, countries), levels, countries) == KeptRows(shp, levels, countries)
  {
    if shp != [] {
      KeptRowsOfKept(shp[1..], levels, countries);
      var head := if Kept(shp[0], levels, countries) then [shp[0]] else [];
      KeptRowsConcat(head, KeptRows(shp[1..], levels, countries), levels, countries);
    }
  }

  /** Filtering an already filtered table changes nothing. */
  lemma ReadNutsIdempotent(shp: seq<NutsRegion>, levels: seq<int>, countries: Option<seq<string>>)
    ensures ReadNuts(ReadNuts(shp, levels, countries), levels, countries) == ReadNuts(shp, levels, countries)
  {
    ReadNutsIsOnePass(shp, levels, countries);
    ReadNutsIsOnePass(KeptRows(shp, levels, countries), levels, countries);
    KeptRowsOfKept(shp, levels, countries);
  }

  // -------------------------------------------------------- make_polygon

  datatype Point = Point(x: real, y: real)

  /** The four corners of the square of half-width o centred on (x, y). */
  function Corners(x: real, y: real, o: real): set<Point>
  {
    {Point(x + o, y - o), Point(x + o, y + o), Point(x - o, y - o), Point(x - o, y + o)}
  }

  /** make_polygon's ring, vertices in the order the source lists them. */
  function MakePolygonAsWritten(x: real, y: real, o: real): (ring: seq<Point>)
    ensures |ring| == 4
  {
    [Point(x + o, y - o), Point(x + o, y + o), Point(x - o, y - o), Point(x - o, y + o)]
  }

  /** The ring that walks the square's boundary: corners in counter-clockwise order. */
  function MakeSquare(x: real, y: real, o: real): (ring: seq<Point>)
    ensures |ring| == 4
  {
    [Point(x + o, y - o), Point(x + o, y + o), Point(x - o, y + o), Point(x - o, y - o)]
  }

  function Cross(p: Point, q: Point): real
  {
    p.x * q.y - q.x * p.y
  }

  /** Twice the signed area of a closed ring (the shoelace formula). */
  function TwiceArea(ring: seq<Point>): real
  {
    TwiceAreaFrom(ring, 0)
  }

  function TwiceAreaFrom(ring: seq<Point>, i: nat): real
    requires i <= |ring|
    decreases |ring| - i
  {
    if i == |ring| then 0.0
    else Cross(ring[i], ring[(i + 1) % |ring|]) + TwiceAreaFrom(ring, i + 1)
  }

  /** The shoelace sum of a four-vertex ring, edge by edge. */
  lemma QuadArea(r: seq<Point>)
    requires |r| == 4
    ensures TwiceArea(r) == Cross(r[0], r[1]) + Cross(r[1], r[2]) + Cross(r[2], r[3]) + Cross(r[3], r[0])
  {
    assert TwiceAreaFrom(r, 3) == Cross(r[3], r[0]);
    assert TwiceAreaFrom(r, 2) == Cross(r[2], r[3]) + TwiceAreaFrom(r, 3);
    assert TwiceAreaFrom(r, 1) == Cross(r[1], r[2]) + TwiceAreaFrom(r, 2);
  }

  function Midpoint(p: Point, q: Point): Point
  {
    Point((p.x + q.x) / 2.0, (p.y + q.y) / 2.0)
  }

  /** Both rings use exactly the four corners of the intended square. */
  lemma RingsUseTheCorners(x: real, y: real, o: real)
    ensures forall i :: 0 <= i < 4 ==> MakePolygonAsWritten(x, y, o)[i] in Corners(x, y, o)
    ensures forall i :: 0 <= i < 4 ==> MakeSquare(x, y, o)[i] in Corners(x, y, o)
    ensures forall c :: c in Corners(x, y, o) ==> c in MakePolygonAsWritten(x, y, o) && c in MakeSquare(x, y, o)
  {
  }

  /**
   * The ring as written is a bow-tie: its second edge (vertex 1 to 2) and
   * its fourth edge (vertex 3 back to 0) both pass through the centre, at
   * their midpoints, along different directions, so the ring crosses
   * itself; and the enclosed signed area is zero.
   */
  lemma AsWrittenIsBowTie(x: real, y: real, o: real)
    requires o > 0.0
    ensures var r := MakePolygonAsWritten(x, y, o);
      Midpoint(r[1], r[2]) == Point(x, y) && Midpoint(r[3], r[0]) == Point(x, y)
    ensures var r := MakePolygonAsWritten(x, y, o);
      Cross(Point(r[2].x - r[1].x, r[2].y - r[1].y), Point(r[0].x - r[3].x, r[0].y - r[3].y)) != 0.0
    ensures TwiceArea(MakePolygonAsWritten(x, y, o)) == 0.0
  {
    var r := MakePolygonAsWritten(x, y, o);
    assert Cross(Point(r[2].x - r[1].x, r[2].y - r[1].y), Point(r[0].x - r[3].x, r[0].y - r[3].y))
      == 8.0 * o * o;
    QuadArea(r);
  }

  /** The corrected ring encloses the square: area (2o)^2, counter-clockwise. */
  lemma SquareArea(x: real, y: real, o: real)
    ensures TwiceArea(MakeSquare(x, y, o)) == 2.0 * (2.0 * o) * (2.0 * o)
  {
    var r := MakeSquare(x, y, o);
    QuadArea(r);
  }

  /** p and q are the ends of one side of a square of side 2o: same x or same y, 2o apart. */
  predicate Side(p: Point, q: Point, o: real)
  {
    (p.x == q.x && (p.y - q.y == 2.0 * o || q.y - p.y == 2.0 * o)) ||
    (p.y == q.y && (p.x - q.x == 2.0 * o || q.x - p.x == 2.0 * o))
  }

  /** Consecutive vertices of the corrected ring, including the closing edge, are joined by sides. */
  lemma SquareEdgesAreSides(x: real, y: real, o: real)
    ensures var r := MakeSquare(x, y, o);
      Side(r[0], r[1], o) && Side(r[1], r[2], o) && Side(r[2], r[3], o) && Side(r[3], r[0], o)
  {
  }

  datatype Triangle = Triangle(a: Point, b: Point, c: Point)

  /**
   * What make_valid keeps of the bow-tie: the two lobes between the ring's
   * sides and the point where its two diagonal edges cross (the centre, by
   * AsWrittenIsBowTie). The lobe on vertices 0 and 1 is the right-hand
   * triangle, the lobe on vertices 2 and 3 the left-hand one.
   */
  function RepairedCell(x: real, y: real, o: real): seq<Triangle>
  {
    var r := MakePolygonAsWritten(x, y, o);
    var crossing := Midpoint(r[1], r[2]);
    [Triangle(r[0], r[1], crossing), Triangle(r[2], r[3], crossing)]
  }

  function TriangleArea(t: Triangle): real
  {
    Abs(TwiceArea([t.a, t.b, t.c])) / 2.0
  }

  /** The area centroid of a triangle is the average of its vertices. */
  function TriangleCentroid(t: Triangle): Point
  {
    Point((t.a.x + t.b.x + t.c.x) / 3.0, (t.a.y + t.b.y + t.c.y) / 3.0)
  }

  /** The area of a union of triangles that do not overlap. */
  function LobesArea(ts: seq<Triangle>): real
  {
    SumOf(TriangleArea, ts)
  }

  /** The centroid of such a union: the area-weighted mean of the triangles' centroids. */
  function CentroidOf(ts: seq<Triangle>): Option<Point>
  {
    var area := LobesArea(ts);
    if area == 0.0 then None
    else Some(Point(SumOf(MomentX, ts) / area, SumOf(MomentY, ts) / area))
  }

  /** A triangle's area times its centroid's x, and times its y: its first moments. */
  function MomentX(t: Triangle): real
  {
    TriangleArea(t) * TriangleCentroid(t).x
  }

  function MomentY(t: Triangle): real
  {
    TriangleArea(t) * TriangleCentroid(t).y
  }

  /** The shoelace sum of a three-vertex ring, edge by edge. */
  lemma TriArea(r: seq<Point>)
    requires |r| == 3
    ensures TwiceArea(r) == Cross(r[0], r[1]) + Cross(r[1], r[2]) + Cross(r[2], r[0])
  {
    assert TwiceAreaFrom(r, 2) == Cross(r[2], r[0]);
    assert TwiceAreaFrom(r, 1) == Cross(r[1], r[2]) + TwiceAreaFrom(r, 2);
  }

  /** Each lobe of the repaired cell has area o^2, and its centroid lies 2o/3 beside the centre. */
  lemma LobeShape(x: real, y: real, o: real)
    requires o > 0.0
    ensures var l := RepairedCell(x, y, o);
      TriangleArea(l[0]) == o * o && TriangleCentroid(l[0]) == Point(x + 2.0 * o / 3.0, y) &&
      TriangleArea(l[1]) == o * o && TriangleCentroid(l[1]) == Point(x - 2.0 * o / 3.0, y)
  {
    var l := RepairedCell(x, y, o);
    assert l[0].c == Point(x, y) && l[1].c == Point(x, y);
    TriArea([l[0].a, l[0].b, l[0].c]);
    assert Cross(l[0].a, l[0].b) + Cross(l[0].b, l[0].c) + Cross(l[0].c, l[0].a) == 2.0 * o * o;
    TriArea([l[1].a, l[1].b, l[1].c]);
    assert Cross(l[1].a, l[1].b) + Cross(l[1].b, l[1].c) + Cross(l[1].c, l[1].a) == -2.0 * o * o;
  }

  /** A sum over two triangles, spelled out. */
  lemma SumOfPair(f: Triangle -> real, p: Triangle, q: Triangle)
    ensures SumOf(f, [p, q]) == f(p) + f(q)
  {
    assert [p, q][1..] == [q];
    SumOfSingleton(f, q);
  }

  /**
   * The cell line 91 takes the centroid of is the repaired bow-tie: two
   * lobes of area o^2 each, half the square, whose area centroid is the
   * grid point the cell was drawn around.
   */
  lemma RepairedCellCentroid(x: real, y: real, o: real)
    requires o > 0.0
    ensures LobesArea(RepairedCell(x, y, o)) == 2.0 * o * o
    ensures CentroidOf(RepairedCell(x, y, o)) == Some(Point(x, y))
  {
    var l := RepairedCell(x, y, o);
    LobeShape(x, y, o);
    SumOfPair(TriangleArea, l[0], l[1]);
    assert l == [l[0], l[1]];
    SumOfPair(MomentX, l[0], l[1]);
    SumOfPair(MomentY, l[0], l[1]);
    ProductPositive(o, o);
    var a := Product(o, o);
    assert a == o * o;
    assert LobesArea(l) == a + a;
    assert SumOf(MomentX, l) == a * (x + 2.0 * o / 3.0) + a * (x - 2.0 * o / 3.0);
    assert SumOf(MomentY, l) == a * (y + 0.0) + a * (y - 0.0);
    MeanOfOpposites(a, x, 2.0 * o / 3.0);
    MeanOfOpposites(a, y, 0.0);
  }

  /** Two equal weights at c + d and c - d average to c. */
  lemma MeanOfOpposites(a: real, c: real, d: real)
    requires a > 0.0
    ensures (a * (c + d) + a * (c - d)) / (a + a) == c
  {
    assert a * (c + d) + a * (c - d) == (a + a) * c;
  }

  // The product is kept behind a function so that the solver keeps the
  // fact about it rather than rewriting it into a fact about the factors.
  function Product(a: real, b: real): real
  {
    a * b
  }

  lemma ProductPositive(a: real, b: real)
    requires a > 0.0 && b > 0.0
    ensures Product(a, b) > 0.0
  {
  }

  // ------------------------------------------------------ grid of cells

  /** A (lon, lat) pair: a grid point, a cell centre or a join key. */
  datatype Key = Key(lon: real, lat: real)

  /** The grid points on one meridian, one per latitude, in latitude order. */
  function Meridian(lon: real, lats: seq<real>): (r: seq<Key>)
    ensures |r| == |lats| && forall j :: 0 <= j < |lats| ==> r[j] == Key(lon, lats[j])
  {
    seq(|lats|, j requires 0 <= j < |lats| => Key(lon, lats[j]))
  }

  /** All grid points, longitude-major: the rows of the longitudes in order. */
  function Cartesian(lons: seq<real>, lats: seq<real>): seq<Key>
  {
    if lons == [] then [] else Cartesian(lons[..|lons| - 1], lats) + Meridian(lons[|lons| - 1], lats)
  }

  lemma {:induction false} CartesianLength(lons: seq<real>, lats: seq<real>)
    ensures |Cartesian(lons, lats)| == |lons| * |lats|
  {
    if lons != [] {
      CartesianLength(lons[..|lons| - 1], lats);
      assert (|lons| - 1) * |lats| + |lats| == |lons| * |lats|;
    }
  }

  /** Position of point (i, j) in a longitude-major table with m latitudes. */
  function Flat(i: nat, j: nat, m: nat): nat
  {
    i * m + j
  }

  /** Point (i, j) of an n-by-m table lies inside it. */
  lemma RowMajorIndex(i: nat, j: nat, n: nat, m: nat)
    requires i < n && j < m
    ensures Flat(i, j, m) < n * m
  {
    assert (i + 1) * m <= n * m;
  }

  lemma {:induction false} CartesianAt(lons: seq<real>, lats: seq<real>, i: nat, j: nat)
    requires i < |lons| && j < |lats|
    ensures Flat(i, j, |lats|) < |Cartesian(lons, lats)|
    ensures Cartesian(lons, lats)[Flat(i, j, |lats|)] == Key(lons[i], lats[j])
  {
    var n := |lons| - 1;
    var front := lons[..n];
    CartesianLength(front, lats);
    CartesianLength(lons, lats);
    RowMajorIndex(i, j, |lons|, |lats|);
    if i < n {
      CartesianAt(front, lats, i, j);
    } else {
      assert Flat(i, j, |lats|) == n * |lats| + j;
      assert Cartesian(lons, lats)[n * |lats| + j] == Meridian(lons[n], lats)[j];
    }
  }

  /** One point per (lon, lat) pair: |lons| * |lats| of them, point (i, j) at position Flat(i, j, |lats|). */
  lemma CartesianShape(lons: seq<real>, lats: seq<real>)
    ensures |Cartesian(lons, lats)| == |lons| * |lats|
    ensures forall i, j :: 0 <= i < |lons| && 0 <= j < |lats| ==>
      Flat(i, j, |lats|) < |Cartesian(lons, lats)| && Cartesian(lons, lats)[Flat(i, j, |lats|)] == Key(lons[i], lats[j])
  {
    CartesianLength(lons, lats);
    forall i, j | 0 <= i < |lons| && 0 <= j < |lats|
      ensures Flat(i, j, |lats|) < |Cartesian(lons, lats)| && Cartesian(lons, lats)[Flat(i, j, |lats|)] == Key(lons[i], lats[j])
    {
      CartesianAt(lons, lats, i, j);
    }
  }

  /** The nested longitude/latitude loop that grows the coordinate table one point at a time. */
  method BuildCoords(lons: seq<real>, lats: seq<real>) returns (coords: seq<Key>)
    ensures coords == Cartesian(lons, lats)
  {
    coords := [];
    var i := 0;
    while i < |lons|
      invariant 0 <= i <= |lons|
      invariant coords == Cartesian(lons[..i], lats)
    {
      var j := 0;
      while j < |lats|
        invariant 0 <= j <= |lats|
        invariant coords == Cartesian(lons[..i], lats) + Meridian(lons[i], lats[..j])
      {
        coords := coords + [Key(lons[i], lats[j])];
        assert Meridian(lons[i], lats[..j + 1]) == Meridian(lons[i], lats[..j]) + [Key(lons[i], lats[j])];
        j := j + 1;
      }
      assert lats[..j] == lats;
      assert lons[..i + 1][..i] == lons[..i];
      i := i + 1;
    }
    assert lons[..i] == lons;
  }

  function Abs(d: real): real
  {
    if d < 0.0 then -d else d
  }

  /** Half the spacing of the first two latitudes, passed through the 3-decimal rounding. */
  function HalfCellSize(lats: seq<real>, round3: real -> real): real
    requires |lats| >= 2
  {
    round3(Abs(lats[1] - lats[0]) / 2.0)
  }

  /** A grid cell: its centre and the square ring drawn around it. */
  datatype Cell = Cell(centre: Key, ring: seq<Point>)

  /** The cell of a grid point: centre rounded to 1 decimal, square of half-width o around it. */
  function CellAt(p: Key, o: real, round1: real -> real): Cell
  {
    var c := Key(round1(p.lon), round1(p.lat));
    Cell(c, MakeSquare(c.lon, c.lat, o))
  }

  /** The cell table of the grid, in the order the coordinate loop produces the points. */
  function Grid(lons: seq<real>, lats: seq<real>, round1: real -> real, round3: real -> real): seq<Cell>
    requires |lats| >= 2
  {
    var coords := Cartesian(lons, lats);
    var o := HalfCellSize(lats, round3);
    seq(|coords|, k requires 0 <= k < |coords| => CellAt(coords[k], o, round1))
  }

  /** One cell per grid point, longitude-major, each a square with the common half-width. */
  lemma GridShape(lons: seq<real>, lats: seq<real>, round1: real -> real, round3: real -> real)
    requires |lats| >= 2
    ensures |Grid(lons, lats, round1, round3)| == |lons| * |lats|
    ensures forall i, j :: 0 <= i < |lons| && 0 <= j < |lats| ==>
      Flat(i, j, |lats|) < |Grid(lons, lats, round1, round3)| &&
      Grid(lons, lats, round1, round3)[Flat(i, j, |lats|)] == CellAt(Key(lons[i], lats[j]), HalfCellSize(lats, round3), round1)
  {
    CartesianShape(lons, lats);
  }

  // ------------------------------------------- coverage of each grid cell

  /** What the geometry engine reports for one grid cell against one region. */
  datatype Overlap = Overlap(intersects: bool, surfArea: real, interArea: real)

  /** A region of the NUTS table: its identifier and the overlap of every grid cell with it, in cell order. */
  datatype Region = Region(nutsId: string, overlaps: seq<Overlap>)

  /** A row of the intersecting-cells table: the rounded centroid and the coverage (None is NaN). */
  datatype Cover = Cover(key: Key, cover: Option<real>)

  /** area_inter / surf_area; a cell of zero area gives NaN. */
  function Coverage(ov: Overlap): (c: Option<real>)
    ensures c.Some? <==> ov.surfArea != 0.0
    ensures c.Some? ==> c.value * ov.surfArea == ov.interArea
  {
    if ov.surfArea == 0.0 then None else Some(ov.interArea / ov.surfArea)
  }

  function Rounded(k: Key, round3: real -> real): Key
  {
    Key(round3(k.lon), round3(k.lat))
  }

  /** The cells that intersect the region, in cell order, keyed by their rounded centroid (the cell centre). */
  function Covers(cells: seq<Cell>, overlaps: seq<Overlap>, round3: real -> real): (r: seq<Cover>)
    requires |cells| == |overlaps|
    ensures |r| <= |cells|
  {
    if cells == [] then []
    else
      (if overlaps[0].intersects then [Cover(Rounded(cells[0].centre, round3), Coverage(overlaps[0]))] else []) +
      Covers(cells[1..], overlaps[1..], round3)
  }

  /** Exactly the intersecting cells survive, each with coverage area_inter / surf_area. */
  lemma {:induction false} CoversExact(cells: seq<Cell>, overlaps: seq<Overlap>, round3: real -> real)
    requires |cells| == |overlaps|
    ensures forall cv :: cv in Covers(cells, overlaps, round3) <==>
      exists i :: 0 <= i < |cells| && overlaps[i].intersects &&
        cv == Cover(Rounded(cells[i].centre, round3), Coverage(overlaps[i]))
  {
    if cells != [] {
      CoversExact(cells[1..], overlaps[1..], round3);
      forall cv | cv in Covers(cells, overlaps, round3)
        ensures exists i :: 0 <= i < |cells| && overlaps[i].intersects && cv == Cover(Rounded(cells[i].centre, round3), Coverage(overlaps[i]))
      {
        if cv !in Covers(cells[1..], overlaps[1..], round3) {
          assert overlaps[0].intersects && cv == Cover(Rounded(cells[0].centre, round3), Coverage(overlaps[0]));
        } else {
          var i :| 0 <= i < |cells| - 1 && overlaps[1..][i].intersects &&
            cv == Cover(Rounded(cells[1..][i].centre, round3), Coverage(overlaps[1..][i]));
          assert overlaps[i + 1].intersects && cv == Cover(Rounded(cells[i + 1].centre, round3), Coverage(overlaps[i + 1]));
        }
      }
      forall i | 0 <= i < |cells| && overlaps[i].intersects
        ensures Cover(Rounded(cells[i].centre, round3), Coverage(overlaps[i])) in Covers(cells, overlaps, round3)
      {
        if i > 0 {
          assert cells[1..][i - 1] == cells[i] && overlaps[1..][i - 1] == overlaps[i];
        }
      }
    }
  }

  // ------------------------------------------- joining the climate rows

  /** A row of the climate table: grid point, time step and the variables (None is NaN). */
  datatype ClimRow = ClimRow(lon: real, lat: real, time: int, values: seq<Option<real>>)

  /** A climate row after the left join: rounded key and the coverage of one matching cell, or NaN. */
  datatype Joined = Joined(key: Key, time: int, values: seq<Option<real>>, cover: Option<real>)

  /** A row that survived dropna: nothing missing. */
  datatype Row = Row(key: Key, time: int, values: seq<real>, cover: real)

  /** The coverages of the cells keyed k, in table order. */
  function CoversAt(covers: seq<Cover>, k: Key): (r: seq<Option<real>>)
    ensures forall c :: c in r <==> Cover(k, c) in covers
  {
    if covers == [] then []
    else (if covers[0].key == k then [covers[0].cover] else []) + CoversAt(covers[1..], k)
  }

  function KeyOf(row: ClimRow, round3: real -> real): Key
  {
    Key(round3(row.lon), round3(row.lat))
  }

  /** A left join of one row: one output per matching cell, or one with NaN coverage when none matches. */
  function JoinRow(row: ClimRow, covers: seq<Cover>, round3: real -> real): seq<Joined>
  {
    var k := KeyOf(row, round3);
    var m := CoversAt(covers, k);
    if m == [] then [Joined(k, row.time, row.values, None)]
    else seq(|m|, i requires 0 <= i < |m| => Joined(k, row.time, row.values, m[i]))
  }

  /** merge(df, coords_inter, on=['lon', 'lat'], how='left'), row by row in table order. */
  function LeftJoin(df: seq<ClimRow>, covers: seq<Cover>, round3: real -> real): seq<Joined>
  {
    if df == [] then [] else JoinRow(df[0], covers, round3) + LeftJoin(df[1..], covers, round3)
  }

  predicate AllPresent(vs: seq<Option<real>>)
  {
    forall k :: 0 <= k < |vs| ==> vs[k].Some?
  }

  predicate Complete(j: Joined)
  {
    j.cover.Some? && AllPresent(j.values)
  }

  function Present(vs: seq<Option<real>>): (r: seq<real>)
    requires AllPresent(vs)
    ensures |r| == |vs| && forall k :: 0 <= k < |vs| ==> vs[k] == Some(r[k])
  {
    seq(|vs|, k requires 0 <= k < |vs| => vs[k].value)
  }

  /** One joined row after dropna: itself, with its values unwrapped, or nothing when something is missing. */
  function Cleaned(j: Joined): seq<Row>
  {
    if Complete(j) then [Row(j.key, j.time, Present(j.values), j.cover.value)] else []
  }

  /** dropna: a row with any missing column, the coverage included, is removed. */
  function DropNa(js: seq<Joined>): (r: seq<Row>)
    ensures |r| <= |js|
  {
    if js == [] then [] else Cleaned(js[0]) + DropNa(js[1..])
  }

  lemma {:induction false} DropNaConcat(a: seq<Joined>, b: seq<Joined>)
    ensures DropNa(a + b) == DropNa(a) + DropNa(b)
  {
    if a == [] {
      assert a + b == b;
    } else {
      var c, rest := Cleaned(a[0]), DropNa(a[1..] + b);
      assert (a + b)[0] == a[0] && (a + b)[1..] == a[1..] + b;
      assert DropNa(a + b) == c + rest;
      DropNaConcat(a[1..], b);
      assert rest == DropNa(a[1..]) + DropNa(b);
      assert DropNa(a) == c + DropNa(a[1..]);
      Regrouped(c, DropNa(a[1..]), DropNa(b));
    }
  }

  /** Concatenation regrouped, stated once so that proofs can cite it. */
  lemma Regrouped<T>(x: seq<T>, y: seq<T>, z: seq<T>)
    ensures x + (y + z) == (x + y) + z
  {
  }

  /** A row whose rounded key matches no intersecting cell is dropped, not kept with weight 0. */
  lemma UnmatchedRowDropped(row: ClimRow, covers: seq<Cover>, round3: real -> real)
    requires forall c :: Cover(KeyOf(row, round3), c) !in covers
    ensures DropNa(JoinRow(row, covers, round3)) == []
  {
    NoCoversAt(covers, KeyOf(row, round3));
  }

  lemma {:induction false} NoCoversAt(covers: seq<Cover>, k: Key)
    requires forall c :: Cover(k, c) !in covers
    ensures CoversAt(covers, k) == []
  {
    if covers != [] {
      assert covers[0] in covers;
      NoCoversAt(covers[1..], k);
    }
  }

  /** A row with a missing variable is dropped whatever cells it matches. */
  lemma {:induction false} IncompleteRowDropped(row: ClimRow, covers: seq<Cover>, round3: real -> real)
    requires !AllPresent(row.values)
    ensures DropNa(JoinRow(row, covers, round3)) == []
  {
    var js := JoinRow(row, covers, round3);
    NoneComplete(js, row.values);
  }

  lemma {:induction false} NoneComplete(js: seq<Joined>, values: seq<Option<real>>)
    requires !AllPresent(values) && forall i :: 0 <= i < |js| ==> js[i].values == values
    ensures DropNa(js) == []
  {
    if js != [] {
      NoneComplete(js[1..], values);
    }
  }

  /** A complete row that matches exactly one cell, of known coverage c, is kept once with coverage c. */
  lemma MatchedRowKept(row: ClimRow, covers: seq<Cover>, round3: real -> real, c: real)
    requires AllPresent(row.values)
    requires CoversAt(covers, KeyOf(row, round3)) == [Some(c)]
    ensures DropNa(JoinRow(row, covers, round3)) == [Row(KeyOf(row, round3), row.time, Present(row.values), c)]
  {
    var js := JoinRow(row, covers, round3);
    assert js[1..] == [];
  }

  /** Each climate row contributes on its own, in table order. */
  lemma {:induction false} PreparedConcat(a: seq<ClimRow>, b: seq<ClimRow>, covers: seq<Cover>, round3: real -> real)
    ensures DropNa(LeftJoin(a + b, covers, round3)) == DropNa(LeftJoin(a, covers, round3)) + DropNa(LeftJoin(b, covers, round3))
  {
    LeftJoinConcat(a, b, covers, round3);
    DropNaConcat(LeftJoin(a, covers, round3), LeftJoin(b, covers, round3));
  }

  lemma {:induction false} LeftJoinConcat(a: seq<ClimRow>, b: seq<ClimRow>, covers: seq<Cover>, round3: real -> real)
    ensures LeftJoin(a + b, covers, round3) == LeftJoin(a, covers, round3) + LeftJoin(b, covers, round3)
  {
    if a == [] {
      assert a + b == b;
    } else {
      assert (a + b)[1..] == a[1..] + b;
      LeftJoinConcat(a[1..], b, covers, round3);
    }
  }

  /** The joined and cleaned rows of one region. */
  function Prepared(region: Region, cells: seq<Cell>, df: seq<ClimRow>, round3: real -> real): seq<Row>
    requires |cells| == |region.overlaps|
  {
    DropNa(LeftJoin(df, Covers(cells, region.overlaps, round3), round3))
  }

  /** With no climate row on an intersecting cell, nothing survives the join. */
  lemma {:induction false} NoMatchNothingPrepared(df: seq<ClimRow>, covers: seq<Cover>, round3: real -> real)
    requires forall i, c :: 0 <= i < |df| ==> Cover(KeyOf(df[i], round3), c) !in covers
    ensures DropNa(LeftJoin(df, covers, round3)) == []
  {
    if df != [] {
      assert df == [df[0]] + df[1..];
      UnmatchedRowDropped(df[0], covers, round3);
      NoMatchNothingPrepared(df[1..], covers, round3);
      DropNaConcat(JoinRow(df[0], covers, round3), LeftJoin(df[1..], covers, round3));
    }
  }

  // ------------------------------------------------- normalised weights

  /** A distinct (lon, lat, perc_cover) triple among the cleaned rows. */
  datatype GridPoint = GridPoint(key: Key, cover: real)

  /** A grid point with its normalised weight (None is NaN). */
  datatype Weight = Weight(key: Key, weight: Option<real>)

  predicate NoDuplicates(s: seq<GridPoint>)
  {
    forall i, j :: 0 <= i < j < |s| ==> s[i] != s[j]
  }

  /** One grid point per (lon, lat): no key carries two different coverages. */
  predicate DistinctKeys(s: seq<GridPoint>)
  {
    forall i, j :: 0 <= i < j < |s| ==> s[i].key != s[j].key
  }

  function PointOf(r: Row): GridPoint
  {
    GridPoint(r.key, r.cover)
  }

  function PointsOf(rows: seq<Row>): (r: seq<GridPoint>)
    ensures |r| == |rows| && forall i :: 0 <= i < |rows| ==> r[i] == PointOf(rows[i])
  {
    seq(|rows|, i requires 0 <= i < |rows| => PointOf(rows[i]))
  }

  /** The elements of s without repetition, in order of first appearance. */
  function Distinct(s: seq<GridPoint>): (r: seq<GridPoint>)
    ensures forall p :: p in r <==> p in s
    ensures NoDuplicates(r)
  {
    if s == [] then []
    else
      var r := Distinct(s[..|s| - 1]);
      assert s == s[..|s| - 1] + [s[|s| - 1]];
      if s[|s| - 1] in r then r else r + [s[|s| - 1]]
  }

  /** grid_points: the distinct (lon, lat, perc_cover) triples of the cleaned rows. */
  function GridPoints(rows: seq<Row>): seq<GridPoint>
  {
    Distinct(PointsOf(rows))
  }

  function CoverOfPoint(p: GridPoint): real
  {
    p.cover
  }

  /** grid_points.perc_cover.sum(). */
  function Total(gp: seq<GridPoint>): real
  {
    SumOf(CoverOfPoint, gp)
  }

  /** Each coverage divided by total; a zero total gives NaN throughout. */
  function NormaliseBy(gp: seq<GridPoint>, total: real): (r: seq<Weight>)
    ensures |r| == |gp|
  {
    if gp == [] then []
    else [Weight(gp[0].key, if total == 0.0 then None else Some(gp[0].cover / total))] + NormaliseBy(gp[1..], total)
  }

  function Normalise(gp: seq<GridPoint>): seq<Weight>
  {
    NormaliseBy(gp, Total(gp))
  }

  /** A weight as the column sum counts it: NaN is skipped. */
  function WeightValue(w: Weight): real
  {
    if w.weight.Some? then w.weight.value else 0.0
  }

  lemma {:induction false} NormaliseBySum(gp: seq<GridPoint>, total: real)
    requires total != 0.0
    ensures SumOf(WeightValue, NormaliseBy(gp, total)) * total == SumOf(CoverOfPoint, gp)
    ensures forall i :: 0 <= i < |gp| ==> NormaliseBy(gp, total)[i] == Weight(gp[i].key, Some(gp[i].cover / total))
  {
    if gp != [] {
      NormaliseBySum(gp[1..], total);
      var rest := SumOf(WeightValue, NormaliseBy(gp[1..], total));
      assert (gp[0].cover / total + rest) * total == gp[0].cover + rest * total;
    }
  }

  /** With a non-zero total the normalised weights are all defined and sum to 1. */
  lemma WeightsSumToOne(gp: seq<GridPoint>)
    requires Total(gp) != 0.0
    ensures forall i :: 0 <= i < |gp| ==> Normalise(gp)[i].weight == Some(gp[i].cover / Total(gp))
    ensures SumOf(WeightValue, Normalise(gp)) == 1.0
  {
    NormaliseBySum(gp, Total(gp));
  }

  lemma {:induction false} NormaliseByZero(gp: seq<GridPoint>)
    ensures forall w :: w in NormaliseBy(gp, 0.0) ==> w.weight.None?
  {
    if gp != [] {
      NormaliseByZero(gp[1..]);
    }
  }

  /** A zero total (no cell with positive coverage) makes every weight NaN. */
  lemma ZeroTotalNoWeight(gp: seq<GridPoint>)
    requires Total(gp) == 0.0
    ensures forall w :: w in Normalise(gp) ==> w.weight.None?
  {
    NormaliseByZero(gp);
  }

  /** Coverages are never negative; one positive coverage makes the total positive. */
  lemma {:induction false} TotalPositive(gp: seq<GridPoint>)
    requires forall i :: 0 <= i < |gp| ==> gp[i].cover >= 0.0
    requires exists i :: 0 <= i < |gp| && gp[i].cover > 0.0
    ensures Total(gp) > 0.0
  {
    TotalNonNegative(gp[1..]);
    if gp[0].cover <= 0.0 {
      var i :| 0 <= i < |gp| && gp[i].cover > 0.0;
      assert gp[1..][i - 1] == gp[i];
      TotalPositive(gp[1..]);
    }
  }

  lemma {:induction false} TotalNonNegative(gp: seq<GridPoint>)
    requires forall i :: 0 <= i < |gp| ==> gp[i].cover >= 0.0
    ensures Total(gp) >= 0.0
  {
    if gp != [] {
      TotalNonNegative(gp[1..]);
    }
  }

  // ----------------------------------------------- weighting and summing

  /** A cleaned row after the second join: the time step, the variables and the weight of its cell. */
  datatype WRow = WRow(time: int, values: seq<real>, weight: Option<real>)

  /** The weights keyed k, in table order. */
  function WeightsAt(ws: seq<Weight>, k: Key): seq<Option<real>>
  {
    if ws == [] then []
    else (if ws[0].key == k then [ws[0].weight] else []) + WeightsAt(ws[1..], k)
  }

  function ReweighRow(r: Row, ws: seq<Weight>): seq<WRow>
  {
    var m := WeightsAt(ws, r.key);
    if m == [] then [WRow(r.time, r.values, None)]
    else seq(|m|, i requires 0 <= i < |m| => WRow(r.time, r.values, m[i]))
  }

  /** merge(df.drop('perc_cover'), grid_points, on=['lon', 'lat'], how='left'). */
  function Reweigh(rows: seq<Row>, ws: seq<Weight>): seq<WRow>
  {
    if rows == [] then [] else ReweighRow(rows[0], ws) + Reweigh(rows[1..], ws)
  }

  /** The rows of one region with their normalised weights. */
  function Weighted(region: Region, cells: seq<Cell>, df: seq<ClimRow>, round3: real -> real): seq<WRow>
    requires |cells| == |region.overlaps|
  {
    var rows := Prepared(region, cells, df, round3);
    Reweigh(rows, Normalise(GridPoints(rows)))
  }

  /** The weighted value of variable k in a row of time step t; NaN counts as nothing. */
  function Contribution(w: WRow, t: int, k: nat): real
  {
    if w.time == t && w.weight.Some? && k < |w.values| then w.values[k] * w.weight.value else 0.0
  }

  /** groupby('time').sum() of variable k at time step t. */
  function SumAt(ws: seq<WRow>, t: int, k: nat): real
  {
    if ws == [] then 0.0 else Contribution(ws[0], t, k) + SumAt(ws[1..], t, k)
  }

  lemma {:induction false} SumAtConcat(a: seq<WRow>, b: seq<WRow>, t: int, k: nat)
    ensures SumAt(a + b, t, k) == SumAt(a, t, k) + SumAt(b, t, k)
  {
    if a == [] {
      assert a + b == b;
    } else {
      assert (a + b)[1..] == a[1..] + b;
      SumAtConcat(a[1..], b, t, k);
    }
  }

  // ------------------------------------------- a constant field averages to itself

  /** The grid points of the rows of time step t, in row order. */
  function PointsAt(rows: seq<Row>, t: int): seq<GridPoint>
  {
    if rows == [] then []
    else (if rows[0].time == t then [PointOf(rows[0])] else []) + PointsAt(rows[1..], t)
  }

  lemma {:induction false} WeightsAtMissing(gp: seq<GridPoint>, total: real, k: Key)
    requires forall i :: 0 <= i < |gp| ==> gp[i].key != k
    ensures WeightsAt(NormaliseBy(gp, total), k) == []
  {
    if gp != [] {
      WeightsAtMissing(gp[1..], total, k);
    }
  }

  /** With one grid point per key, a row's only weight is its own coverage over the total. */
  lemma {:induction false} WeightsAtUnique(gp: seq<GridPoint>, total: real, p: GridPoint)
    requires DistinctKeys(gp) && p in gp && total != 0.0
    ensures WeightsAt(NormaliseBy(gp, total), p.key) == [Some(p.cover / total)]
  {
    var rest := gp[1..];
    assert DistinctKeys(rest) by {
      forall i, j | 0 <= i < j < |rest| ensures rest[i].key != rest[j].key {
        assert rest[i] == gp[i + 1] && rest[j] == gp[j + 1];
      }
    }
    if gp[0] == p {
      forall i | 0 <= i < |rest| ensures rest[i].key != p.key {
        assert rest[i] == gp[i + 1];
      }
      WeightsAtMissing(rest, total, p.key);
    } else {
      assert p in rest;
      var j :| 0 <= j < |rest| && rest[j] == p;
      assert gp[j + 1] == p;
      WeightsAtUnique(rest, total, p);
    }
  }

  /** v times the fraction s / total of the total coverage. */
  function Share(v: real, s: real, total: real): real
    requires total != 0.0
  {
    v * s / total
  }

  /** Adding one coverage c to the covered sum s adds v * (c / total) to the share. */
  lemma ShareStep(v: real, c: real, s: real, total: real, head: real, rest: real)
    requires total != 0.0
    requires head == v * (c / total) && rest == Share(v, s, total)
    ensures head + rest == Share(v, c + s, total)
  {
    assert v * (c / total) == v * c / total;
  }

  lemma ShareOfNothing(v: real, total: real)
    requires total != 0.0
    ensures Share(v, 0.0, total) == 0.0
  {
  }

  lemma ShareOfTotal(v: real, total: real)
    requires total != 0.0
    ensures Share(v, total, total) == v
  {
  }

  /** The one weighted row of a row whose weight is its coverage over total. */
  lemma ReweighHead(r: Row, ws: seq<Weight>, total: real, t: int, k: nat, v: real, c: real)
    requires total != 0.0
    requires c == if r.time == t then r.cover else 0.0
    requires WeightsAt(ws, r.key) == [Some(r.cover / total)]
    requires k < |r.values| && (r.time == t ==> r.values[k] == v)
    ensures SumAt(ReweighRow(r, ws), t, k) == v * (c / total)
  {
    assert ReweighRow(r, ws) == [WRow(r.time, r.values, Some(r.cover / total))];
    if r.time != t {
      assert v * (0.0 / total) == 0.0;
    }
  }

  lemma PointsAtCons(rows: seq<Row>, t: int)
    requires rows != []
    ensures SumOf(CoverOfPoint, PointsAt(rows, t)) ==
      (if rows[0].time == t then rows[0].cover else 0.0) + SumOf(CoverOfPoint, PointsAt(rows[1..], t))
  {
    var pts := PointsAt(rows, t);
    if rows[0].time == t {
      assert pts == [PointOf(rows[0])] + PointsAt(rows[1..], t);
      assert pts[1..] == PointsAt(rows[1..], t);
      assert CoverOfPoint(pts[0]) == rows[0].cover;
    } else {
      assert pts == PointsAt(rows[1..], t);
    }
  }

  /** Summing a field that is v at time t, when every row's weight is its coverage over total. */
  lemma {:induction false} ReweighSum(rows: seq<Row>, ws: seq<Weight>, total: real, t: int, k: nat, v: real)
    requires total != 0.0
    requires forall i :: 0 <= i < |rows| ==> WeightsAt(ws, rows[i].key) == [Some(rows[i].cover / total)]
    requires forall i :: 0 <= i < |rows| ==> k < |rows[i].values| && (rows[i].time == t ==> rows[i].values[k] == v)
    ensures SumAt(Reweigh(rows, ws), t, k) == Share(v, SumOf(CoverOfPoint, PointsAt(rows, t)), total)
  {
    if rows != [] {
      ReweighSum(rows[1..], ws, total, t, k, v);
      ReweighSumStep(rows, ws, total, t, k, v);
    } else {
      ShareOfNothing(v, total);
    }
  }

  /** One more row at the front adds its share to both sides of ReweighSum. */
  lemma ReweighSumStep(rows: seq<Row>, ws: seq<Weight>, total: real, t: int, k: nat, v: real)
    requires total != 0.0 && rows != []
    requires WeightsAt(ws, rows[0].key) == [Some(rows[0].cover / total)]
    requires k < |rows[0].values| && (rows[0].time == t ==> rows[0].values[k] == v)
    requires SumAt(Reweigh(rows[1..], ws), t, k) == Share(v, SumOf(CoverOfPoint, PointsAt(rows[1..], t)), total)
    ensures SumAt(Reweigh(rows, ws), t, k) == Share(v, SumOf(CoverOfPoint, PointsAt(rows, t)), total)
  {
    var r := rows[0];
    var c := if r.time == t then r.cover else 0.0;
    var head := SumAt(ReweighRow(r, ws), t, k);
    var rest := SumAt(Reweigh(rows[1..], ws), t, k);
    var s := SumOf(CoverOfPoint, PointsAt(rows[1..], t));
    ReweighHead(r, ws, total, t, k, v, c);
    ShareStep(v, c, s, total, head, rest);
    SumAtConcat(ReweighRow(r, ws), Reweigh(rows[1..], ws), t, k);
    PointsAtCons(rows, t);
  }

  /**
   * A field that is v everywhere at time t averages to v at t, when every
   * grid point of the region appears exactly once among the rows of step t,
   * no key carries two different coverages, and the coverages do not sum to
   * zero.
   */
  lemma ConstantFieldAverage(rows: seq<Row>, t: int, k: nat, v: real)
    requires Total(GridPoints(rows)) != 0.0
    requires DistinctKeys(GridPoints(rows))
    requires multiset(PointsAt(rows, t)) == multiset(GridPoints(rows))
    requires forall i :: 0 <= i < |rows| ==> k < |rows[i].values| && (rows[i].time == t ==> rows[i].values[k] == v)
    ensures SumAt(Reweigh(rows, Normalise(GridPoints(rows))), t, k) == v
  {
    var gp := GridPoints(rows);
    var total := Total(gp);
    forall i | 0 <= i < |rows| ensures WeightsAt(Normalise(gp), rows[i].key) == [Some(rows[i].cover / total)] {
      assert PointsOf(rows)[i] == PointOf(rows[i]);
      WeightsAtUnique(gp, total, PointOf(rows[i]));
    }
    ReweighSum(rows, Normalise(gp), total, t, k, v);
    SumOfPermutation(CoverOfPoint, PointsAt(rows, t), gp);
    ShareOfTotal(v, total);
  }

  // ------------------------------------------------ one row per time step

  predicate Increasing(s: seq<int>)
  {
    forall i, j :: 0 <= i < j < |s| ==> s[i] < s[j]
  }

  /** t added to an increasing sequence of distinct time steps, keeping it increasing. */
  function Insert(s: seq<int>, t: int): (r: seq<int>)
    requires Increasing(s)
    ensures Increasing(r)
    ensures forall x :: x in r <==> x in s || x == t
  {
    if s == [] then [t]
    else if t < s[0] then [t] + s
    else if t == s[0] then s
    else
      IncreasingTail(s);
      var r := Insert(s[1..], t);
      ConsIncreasing(s, t, r);
      [s[0]] + r
  }

  lemma IncreasingTail(s: seq<int>)
    requires Increasing(s) && s != []
    ensures Increasing(s[1..]) && forall m :: 0 <= m < |s| - 1 ==> s[1..][m] > s[0]
  {
    forall m | 0 <= m < |s| - 1 ensures s[1..][m] > s[0] {
      assert s[1..][m] == s[m + 1];
    }
  }

  /** The head stays in front of what t was inserted into. */
  lemma ConsIncreasing(s: seq<int>, t: int, r: seq<int>)
    requires Increasing(s) && s != [] && t > s[0] && Increasing(r)
    requires forall x :: x in r <==> x in s[1..] || x == t
    ensures Increasing([s[0]] + r)
  {
    IncreasingTail(s);
    forall j | 0 <= j < |r| ensures r[j] > s[0] {
      assert r[j] in r;
    }
    forall i, j | 0 <= i < j < |[s[0]] + r| ensures ([s[0]] + r)[i] < ([s[0]] + r)[j] {
      if i == 0 {
        assert ([s[0]] + r)[j] == r[j - 1];
      } else {
        assert ([s[0]] + r)[i] == r[i - 1] && ([s[0]] + r)[j] == r[j - 1];
      }
    }
  }

  /** The distinct time steps of ts in increasing order, as groupby lists its groups. */
  function SortedDistinct(ts: seq<int>): (r: seq<int>)
    ensures Increasing(r)
    ensures forall x :: x in r <==> x in ts
  {
    if ts == [] then []
    else
      assert ts == ts[..|ts| - 1] + [ts[|ts| - 1]];
      Insert(SortedDistinct(ts[..|ts| - 1]), ts[|ts| - 1])
  }

  function TimesOf(ws: seq<WRow>): (r: seq<int>)
    ensures |r| == |ws| && forall i :: 0 <= i < |ws| ==> r[i] == ws[i].time
  {
    seq(|ws|, i requires 0 <= i < |ws| => ws[i].time)
  }

  /** A row of the region's result: a time step, one sum per variable, the region's NUTS_ID. */
  datatype OutRow = OutRow(time: int, sums: seq<real>, nutsId: string)

  /**
   * getNutsclim for one region, nv being the number of climate variables:
   * one row per time step present after the joins, in increasing time,
   * each holding the weighted sum of every variable and the region's id.
   */
  function NutsClim(region: Region, cells: seq<Cell>, df: seq<ClimRow>, nv: nat, round3: real -> real): (out: seq<OutRow>)
    requires |cells| == |region.overlaps|
    ensures forall i :: 0 <= i < |out| ==> out[i].nutsId == region.nutsId && |out[i].sums| == nv
    ensures forall i, k :: 0 <= i < |out| && 0 <= k < nv ==>
      out[i].sums[k] == SumAt(Weighted(region, cells, df, round3), out[i].time, k)
    ensures forall i, j :: 0 <= i < j < |out| ==> out[i].time < out[j].time
    ensures forall i :: 0 <= i < |out| ==> out[i].time in TimesOf(Weighted(region, cells, df, round3))
  {
    var w := Weighted(region, cells, df, round3);
    var ts := SortedDistinct(TimesOf(w));
    seq(|ts|, i requires 0 <= i < |ts| =>
      OutRow(ts[i], seq(nv, k requires 0 <= k < nv => SumAt(w, ts[i], k)), region.nutsId))
  }

  /** Every time step present after the joins has its row. */
  lemma NutsClimTimes(region: Region, cells: seq<Cell>, df: seq<ClimRow>, nv: nat, round3: real -> real, t: int)
    requires |cells| == |region.overlaps|
    requires t in TimesOf(Weighted(region, cells, df, round3))
    ensures exists i :: 0 <= i < |NutsClim(region, cells, df, nv, round3)| && NutsClim(region, cells, df, nv, round3)[i].time == t
  {
    var ts := SortedDistinct(TimesOf(Weighted(region, cells, df, round3)));
    var i :| 0 <= i < |ts| && ts[i] == t;
    assert NutsClim(region, cells, df, nv, round3)[i].time == t;
  }

  lemma {:induction false} ReweighKeepsTimes(rows: seq<Row>, ws: seq<Weight>, i: int)
    requires 0 <= i < |rows|
    ensures rows[i].time in TimesOf(Reweigh(rows, ws))
  {
    var head := ReweighRow(rows[0], ws);
    var tail := Reweigh(rows[1..], ws);
    assert Reweigh(rows, ws) == head + tail;
    if i == 0 {
      ReweighRowTime(rows[0], ws);
      TimesOfFront(head, tail);
    } else {
      ReweighKeepsTimes(rows[1..], ws, i - 1);
      TimesOfAppend(head, tail, rows[i].time);
    }
  }

  /** Every row yields at least one weighted row, at its own time step. */
  lemma ReweighRowTime(r: Row, ws: seq<Weight>)
    ensures ReweighRow(r, ws) != [] && ReweighRow(r, ws)[0].time == r.time
  {
  }

  /** The time step of the first part's first row is a time step of the whole. */
  lemma TimesOfFront(head: seq<WRow>, tail: seq<WRow>)
    requires head != []
    ensures head[0].time in TimesOf(head + tail)
  {
    assert TimesOf(head + tail)[0] == head[0].time;
  }

  /** A time step of the second part is a time step of the whole. */
  lemma TimesOfAppend(head: seq<WRow>, tail: seq<WRow>, t: int)
    requires t in TimesOf(tail)
    ensures t in TimesOf(head + tail)
  {
    var j :| 0 <= j < |tail| && TimesOf(tail)[j] == t;
    assert TimesOf(head + tail)[|head| + j] == t;
  }

  lemma {:induction false} PointsAtHasRow(rows: seq<Row>, t: int)
    requires PointsAt(rows, t) != []
    ensures exists i :: 0 <= i < |rows| && rows[i].time == t
  {
    if rows[0].time != t {
      assert PointsAt(rows, t) == PointsAt(rows[1..], t);
      PointsAtHasRow(rows[1..], t);
      var i :| 0 <= i < |rows| - 1 && rows[1..][i].time == t;
      assert rows[i + 1].time == t;
    }
  }

  /** out has a row for time step t whose sum of variable k is v. */
  predicate HasRow(out: seq<OutRow>, t: int, k: nat, v: real)
  {
    exists i :: 0 <= i < |out| && out[i].time == t && k < |out[i].sums| && out[i].sums[k] == v
  }

  /** The weighted sum of a constant field over a region's rows, and the presence of its time step. */
  lemma ConstantFieldWeighted(region: Region, cells: seq<Cell>, df: seq<ClimRow>, round3: real -> real, t: int, k: nat, v: real)
    requires |cells| == |region.overlaps|
    requires Total(GridPoints(Prepared(region, cells, df, round3))) != 0.0
    requires DistinctKeys(GridPoints(Prepared(region, cells, df, round3)))
    requires multiset(PointsAt(Prepared(region, cells, df, round3), t)) == multiset(GridPoints(Prepared(region, cells, df, round3)))
    requires forall r :: r in Prepared(region, cells, df, round3) ==> k < |r.values| && (r.time == t ==> r.values[k] == v)
    ensures SumAt(Weighted(region, cells, df, round3), t, k) == v
    ensures t in TimesOf(Weighted(region, cells, df, round3))
  {
    var rows := Prepared(region, cells, df, round3);
    var gp := GridPoints(rows);
    assert Weighted(region, cells, df, round3) == Reweigh(rows, Normalise(gp));
    assert forall i :: 0 <= i < |rows| ==> rows[i] in rows;
    ConstantFieldAverage(rows, t, k, v);
    CoveredStepKept(rows, Normalise(gp), t);
  }

  /** A time step at which every grid point of a non-zero total appears survives the weighting. */
  lemma CoveredStepKept(rows: seq<Row>, ws: seq<Weight>, t: int)
    requires Total(GridPoints(rows)) != 0.0
    requires multiset(PointsAt(rows, t)) == multiset(GridPoints(rows))
    ensures t in TimesOf(Reweigh(rows, ws))
  {
    var gp := GridPoints(rows);
    assert gp != [];
    assert gp[0] in multiset(PointsAt(rows, t));
    PointsAtHasRow(rows, t);
    var i :| 0 <= i < |rows| && rows[i].time == t;
    ReweighKeepsTimes(rows, ws, i);
  }

  /** A field that is v at step t (with every grid point present once at t) comes out as v in the region's row for t. */
  lemma ConstantFieldOutput(region: Region, cells: seq<Cell>, df: seq<ClimRow>, nv: nat, round3: real -> real, t: int, k: nat, v: real)
    requires |cells| == |region.overlaps| && k < nv
    requires Total(GridPoints(Prepared(region, cells, df, round3))) != 0.0
    requires DistinctKeys(GridPoints(Prepared(region, cells, df, round3)))
    requires multiset(PointsAt(Prepared(region, cells, df, round3), t)) == multiset(GridPoints(Prepared(region, cells, df, round3)))
    requires forall r :: r in Prepared(region, cells, df, round3) ==> k < |r.values| && (r.time == t ==> r.values[k] == v)
    ensures HasRow(NutsClim(region, cells, df, nv, round3), t, k, v)
  {
    ConstantFieldWeighted(region, cells, df, round3, t, k, v);
    NutsClimTimes(region, cells, df, nv, round3, t);
    var out := NutsClim(region, cells, df, nv, round3);
    var j :| 0 <= j < |out| && out[j].time == t;
    assert out[j].sums[k] == SumAt(Weighted(region, cells, df, round3), t, k);
  }

  /** A region none of whose intersecting cells carries a climate row yields no rows and no error. */
  lemma NoMatchNoRows(region: Region, cells: seq<Cell>, df: seq<ClimRow>, nv: nat, round3: real -> real)
    requires |cells| == |region.overlaps|
    requires forall i, c :: 0 <= i < |df| ==> Cover(KeyOf(df[i], round3), c) !in Covers(cells, region.overlaps, round3)
    ensures NutsClim(region, cells, df, nv, round3) == []
  {
    NoMatchNothingPrepared(df, Covers(cells, region.overlaps, round3), round3);
  }

  // ------------------------------------------------ all regions in order

  predicate Aligned(cells: seq<Cell>, regions: seq<Region>)
  {
    forall j :: 0 <= j < |regions| ==> |regions[j].overlaps| == |cells|
  }

  /** The sequential branch: the regions' results concatenated in region-index order. */
  function AllRegions(cells: seq<Cell>, regions: seq<Region>, df: seq<ClimRow>, nv: nat, round3: real -> real): seq<OutRow>
    requires Aligned(cells, regions)
  {
    if regions == [] then []
    else AllRegions(cells, regions[..|regions| - 1], df, nv, round3) + NutsClim(regions[|regions| - 1], cells, df, nv, round3)
  }

  method NutsClimAll(cells: seq<Cell>, regions: seq<Region>, df: seq<ClimRow>, nv: nat, round3: real -> real)
    returns (out: seq<OutRow>)
    requires Aligned(cells, regions)
    ensures out == AllRegions(cells, regions, df, nv, round3)
  {
    out := [];
    var ind := 0;
    AlignedPrefix(cells, regions, 0);
    while ind < |regions|
      invariant 0 <= ind <= |regions|
      invariant Aligned(cells, regions[..ind])
      invariant out == AllRegions(cells, regions[..ind], df, nv, round3)
    {
      out := out + NutsClim(regions[ind], cells, df, nv, round3);
      var pre := regions[..ind + 1];
      AlignedPrefix(cells, regions, ind + 1);
      assert pre[..ind] == regions[..ind] && pre[ind] == regions[ind];
      ind := ind + 1;
    }
    assert regions[..ind] == regions;
  }

  lemma AlignedPrefix(cells: seq<Cell>, regions: seq<Region>, n: nat)
    requires Aligned(cells, regions) && n <= |regions|
    ensures Aligned(cells, regions[..n])
  {
    forall j | 0 <= j < n ensures |regions[..n][j].overlaps| == |cells| {
      assert regions[..n][j] == regions[j];
    }
  }

  /** The result of a list of regions split in two is the two results one after the other. */
  lemma {:induction false} AllRegionsConcat(cells: seq<Cell>, a: seq<Region>, b: seq<Region>, df: seq<ClimRow>, nv: nat, round3: real -> real)
    requires Aligned(cells, a) && Aligned(cells, b)
    ensures Aligned(cells, a + b)
    ensures AllRegions(cells, a + b, df, nv, round3) == AllRegions(cells, a, df, nv, round3) + AllRegions(cells, b, df, nv, round3)
    decreases |b|
  {
    AlignedConcat(cells, a, b);
    if b == [] {
      assert a + b == a;
    } else {
      var n := |b| - 1;
      assert (a + b)[..|a + b| - 1] == a + b[..n];
      assert (a + b)[|a + b| - 1] == b[n];
      AlignedPrefix(cells, b, n);
      AllRegionsConcat(cells, a, b[..n], df, nv, round3);
      var last := NutsClim(b[n], cells, df, nv, round3);
      assert AllRegions(cells, a + b, df, nv, round3) == AllRegions(cells, a + b[..n], df, nv, round3) + last;
      assert AllRegions(cells, b, df, nv, round3) == AllRegions(cells, b[..n], df, nv, round3) + last;
      Regrouped(AllRegions(cells, a, df, nv, round3), AllRegions(cells, b[..n], df, nv, round3), last);
    }
  }

  lemma AlignedConcat(cells: seq<Cell>, a: seq<Region>, b: seq<Region>)
    requires Aligned(cells, a) && Aligned(cells, b)
    ensures Aligned(cells, a + b)
  {
    forall j | 0 <= j < |a + b| ensures |(a + b)[j].overlaps| == |cells| {
      if j < |a| {
        assert (a + b)[j] == a[j];
      } else {
        assert (a + b)[j] == b[j - |a|];
      }
    }
  }

  /** Every row of the result carries the NUTS_ID of one of the regions. */
  lemma {:induction false} AllRegionsTagged(cells: seq<Cell>, regions: seq<Region>, df: seq<ClimRow>, nv: nat, round3: real -> real)
    requires Aligned(cells, regions)
    ensures forall o :: o in AllRegions(cells, regions, df, nv, round3) ==>
      exists j :: 0 <= j < |regions| && o.nutsId == regions[j].nutsId
  {
    if regions != [] {
      var n := |regions| - 1;
      assert Aligned(cells, regions[..n]);
      AllRegionsTagged(cells, regions[..n], df, nv, round3);
      assert AllRegions(cells, regions, df, nv, round3) ==
        AllRegions(cells, regions[..n], df, nv, round3) + NutsClim(regions[n], cells, df, nv, round3);
      forall o | o in AllRegions(cells, regions, df, nv, round3)
        ensures exists j :: 0 <= j < |regions| && o.nutsId == regions[j].nutsId
      {
        if o in NutsClim(regions[n], cells, df, nv, round3) {
          assert o.nutsId == regions[n].nutsId;
        } else {
          assert o in AllRegions(cells, regions[..n], df, nv, round3);
          var j :| 0 <= j < n && o.nutsId == regions[..n][j].nutsId;
          assert regions[j] == regions[..n][j];
        }
      }
    }
  }

  /**
   * getNutsClimAll after the dataset is opened, in sequential mode: the
   * cell table from the grid, then the region loop.
   */
  method GetNutsClimAll(lons: seq<real>, lats: seq<real>, regions: seq<Region>, df: seq<ClimRow>, nv: nat,
                        round1: real -> real, round3: real -> real)
    returns (out: seq<OutRow>)
    requires |lats| >= 2
    requires forall j :: 0 <= j < |regions| ==> |regions[j].overlaps| == |lons| * |lats|
    ensures Aligned(Grid(lons, lats, round1, round3), regions)
    ensures out == AllRegions(Grid(lons, lats, round1, round3), regions, df, nv, round3)
  {
    var coords := BuildCoords(lons, lats);
    CartesianLength(lons, lats);
    var o := HalfCellSize(lats, round3);
    var cells := seq(|coords|, k requires 0 <= k < |coords| => CellAt(coords[k], o, round1));
    assert cells == Grid(lons, lats, round1, round3);
    out := NutsClimAll(cells, regions, df, nv, round3);
  }
}
