/**
 * The mesh topology of one terrain patch: a 3x3 lattice whose edge midpoints are dropped on
 * the sides where a neighbour is coarser (to close cracks), triangulated as a fan around the
 * centre vertex. The neighbour bits are forward = 1, back = 2, left = 4, right = 8.
 */
module PatchMesh {
  import opened ErrorGrid

  const Forward: bv4 := 1
  const Back: bv4 := 2
  const Left: bv4 := 4
  const Right: bv4 := 8

  /**
   * A point of the patch's 3x3 lattice. Lattice point (x, z) is the vertex
   * position + left * x * scale / 2 + forward * z * scale / 2, with uv (x / 2, z / 2).
   */
  datatype Lattice = Lattice(x: int, z: int)

  function Has(m: bv4, bit: bv4): bool
  {
    m & bit != 0
  }

  /** The number of neighbour bits set in m: vertCount. */
  function PopCount(m: bv4): (c: nat)
    ensures c <= 4
    ensures c == 0 <==> m == 0
  {
    (if Has(m, Forward) then 1 else 0) + (if Has(m, Back) then 1 else 0) +
    (if Has(m, Left) then 1 else 0) + (if Has(m, Right) then 1 else 0)
  }

  // ---------------------------------------------------------------------------------------
  // The neighbour mask
  // ---------------------------------------------------------------------------------------

  /** The grid cell (x, z) holds neither 0 nor 255: that part of the terrain was not refined this frame. */
  predicate Unrefined(g: seq<int>, n: int, x: int, z: int)
    requires |g| == n * n && 0 <= x < n && 0 <= z < n
  {
    g[Idx(n, x, z)] != 0 && g[Idx(n, x, z)] != 255
  }

  /**
   * The neighbour mask of the patch whose cell is (qx, qz) and whose edge is s: the bit of a side
   * is set when the cell one edge away on that side lies in the grid and is unrefined.
   */
  function NeighbourMask(g: seq<int>, n: int, qx: int, qz: int, s: int): (m: bv4)
    requires |g| == n * n && 0 <= qx < n && 0 <= qz < n && s >= 0
    ensures Has(m, Forward) <==> qz + s < n && Unrefined(g, n, qx, qz + s)
    ensures Has(m, Back) <==> qz - s >= 0 && Unrefined(g, n, qx, qz - s)
    ensures Has(m, Left) <==> qx + s < n && Unrefined(g, n, qx + s, qz)
    ensures Has(m, Right) <==> qx - s >= 0 && Unrefined(g, n, qx - s, qz)
  {
    var f: bv4 := if qz + s < n && Unrefined(g, n, qx, qz + s) then Forward else 0;
    var b: bv4 := if qz - s >= 0 && Unrefined(g, n, qx, qz - s) then Back else 0;
    var l: bv4 := if qx + s < n && Unrefined(g, n, qx + s, qz) then Left else 0;
    var r: bv4 := if qx - s >= 0 && Unrefined(g, n, qx - s, qz) then Right else 0;
    f | b | l | r
  }

  // ---------------------------------------------------------------------------------------
  // The vertex layout
  // ---------------------------------------------------------------------------------------

  /**
   * The vertices Generate writes for mask m, slot by slot: the centre, then the boundary
   * counter-clockwise from (0, 0), each edge midpoint only when its side's bit is clear.
   */
  function Layout(m: bv4): (vs: seq<Lattice>)
  {
    [Lattice(1, 1), Lattice(0, 0)] +
    (if Has(m, Back) then [] else [Lattice(1, 0)]) +
    [Lattice(2, 0)] +
    (if Has(m, Left) then [] else [Lattice(2, 1)]) +
    [Lattice(2, 2)] +
    (if Has(m, Forward) then [] else [Lattice(1, 2)]) +
    [Lattice(0, 2)] +
    (if Has(m, Right) then [] else [Lattice(0, 1)])
  }

  predicate Distinct<T(==)>(s: seq<T>)
  {
    forall i, j | 0 <= i < j < |s| :: s[i] != s[j]
  }

  /** The vertex array has 9 - vertCount entries and starts with the centre. */
  lemma LayoutSize(m: bv4)
    ensures |Layout(m)| == 9 - PopCount(m) && Layout(m)[0] == Lattice(1, 1)
  {
  }

  /** Every vertex is a point of the 3 x 3 lattice. */
  lemma LayoutInLattice(m: bv4)
    ensures forall i | 0 <= i < |Layout(m)| :: 0 <= Layout(m)[i].x <= 2 && 0 <= Layout(m)[i].z <= 2
  {
  }

  /** The four corners are always present, whatever the mask. */
  lemma LayoutCorners(m: bv4)
    ensures var vs := Layout(m);
      Lattice(0, 0) in vs && Lattice(2, 0) in vs && Lattice(2, 2) in vs && Lattice(0, 2) in vs
  {
  }

  /** Each edge midpoint is present exactly when its side's bit is clear. */
  lemma LayoutMidpoints(m: bv4)
    ensures var vs := Layout(m);
      (Lattice(1, 0) in vs <==> !Has(m, Back)) && (Lattice(2, 1) in vs <==> !Has(m, Left)) &&
      (Lattice(1, 2) in vs <==> !Has(m, Forward)) && (Lattice(0, 1) in vs <==> !Has(m, Right))
  {
  }

  /** No lattice point is written twice. */
  lemma LayoutDistinct(m: bv4)
    ensures Distinct(Layout(m))
  {
  }

  // ---------------------------------------------------------------------------------------
  // The triangle fan
  // ---------------------------------------------------------------------------------------

  /** The triangles (0, vi + 1, vi) for vi = 1 .. k - 1, flattened. */
  function Strip(k: int): (ts: seq<int>)
    requires k >= 1
    decreases k
  {
    if k == 1 then [] else Strip(k - 1) + [0, k, k - 1]
  }

  /** The fan over len vertices: the strip around the centre and the triangle (0, 1, len - 1) that closes it. */
  function Fan(len: int): (ts: seq<int>)
    requires len >= 2
  {
    Strip(len - 1) + [0, 1, len - 1]
  }

  lemma {:induction false} StripShape(k: int)
    requires k >= 1
    ensures |Strip(k)| == 3 * (k - 1)
    ensures forall t | 0 <= t < k - 1 ::
      Strip(k)[3 * t] == 0 && Strip(k)[3 * t + 1] == t + 2 && Strip(k)[3 * t + 2] == t + 1
    decreases k
  {
    if k > 1 {
      StripShape(k - 1);
    }
  }

  /**
   * The fan fills the triangle array exactly (3 * (len - 1) entries, 24 - 3 * vertCount for the
   * layout of a mask), every triangle has the centre as its first vertex, triangle t joins the
   * consecutive boundary vertices t + 2 and t + 1, the last one closes the ring with (1, len - 1),
   * and every index names a vertex.
   */
  lemma FanShape(len: int)
    requires len >= 2
    ensures var ts := Fan(len);
      |ts| == 3 * (len - 1) &&
      (forall t | 0 <= t < len - 2 :: ts[3 * t] == 0 && ts[3 * t + 1] == t + 2 && ts[3 * t + 2] == t + 1) &&
      ts[3 * (len - 2)] == 0 && ts[3 * (len - 2) + 1] == 1 && ts[3 * (len - 2) + 2] == len - 1 &&
      (forall i | 0 <= i < |ts| :: 0 <= ts[i] < len)
  {
    StripShape(len - 1);
    var ts := Fan(len);
    forall i | 0 <= i < |ts| ensures 0 <= ts[i] < len {
      if i < 3 * (len - 2) {
        var t := i / 3;
        assert 3 * t <= i < 3 * t + 3;
      }
    }
  }

  /** Twice the signed area of triangle (a, b, c) in the lattice; negative when it turns clockwise. */
  function Cross(a: Lattice, b: Lattice, c: Lattice): int
  {
    (b.x - a.x) * (c.z - a.z) - (b.z - a.z) * (c.x - a.x)
  }

  /** Every index of ts names an element of vs. */
  predicate Indexes<T>(ts: seq<int>, vs: seq<T>)
  {
    forall i | 0 <= i < |ts| :: 0 <= ts[i] < |vs|
  }

  /** Twice the signed area of triangle t of ts, with vertices taken from vs. */
  function TriArea(vs: seq<Lattice>, ts: seq<int>, t: nat): int
    requires 3 * t + 3 <= |ts| && Indexes(ts, vs)
  {
    Cross(vs[ts[3 * t]], vs[ts[3 * t + 1]], vs[ts[3 * t + 2]])
  }

  /** The sum of the signed areas of the first k triangles of ts. */
  function AreaSum(vs: seq<Lattice>, ts: seq<int>, k: nat): int
    requires 3 * k <= |ts| && Indexes(ts, vs)
  {
    if k == 0 then 0 else AreaSum(vs, ts, k - 1) + TriArea(vs, ts, k - 1)
  }

  const Centre := Lattice(1, 1)

  /** Twice the signed area of the fan triangle (centre, w, u) that spans boundary step u -> w. */
  function Turn(u: Lattice, w: Lattice): int
  {
    Cross(Centre, w, u)
  }

  /** The summed area of the fan triangles over the consecutive points of the boundary walk r. */
  function Walk(r: seq<Lattice>): int
  {
    if |r| < 2 then 0 else Walk(r[..|r| - 1]) + Turn(r[|r| - 2], r[|r| - 1])
  }

  /** Every step u -> w of the boundary walk r spans a clockwise fan triangle (centre, w, u). */
  predicate Winds(r: seq<Lattice>)
  {
    forall i | 0 <= i < |r| - 1 :: Turn(r[i], r[i + 1]) < 0
  }

  lemma {:induction false} WalkAppend(a: seq<Lattice>, b: seq<Lattice>)
    requires |a| >= 1 && |b| >= 1
    ensures Walk(a + b) == Walk(a) + Turn(a[|a| - 1], b[0]) + Walk(b)
    decreases |b|
  {
    var ab := a + b;
    if |b| == 1 {
      assert ab[..|ab| - 1] == a;
    } else {
      var b' := b[..|b| - 1];
      assert ab[..|ab| - 1] == a + b';
      WalkAppend(a, b');
    }
  }

  lemma WindsAppend(a: seq<Lattice>, b: seq<Lattice>)
    requires |a| >= 1 && |b| >= 1
    requires Winds(a) && Turn(a[|a| - 1], b[0]) < 0 && Winds(b)
    ensures Winds(a + b)
  {
    var ab := a + b;
    forall i | 0 <= i < |ab| - 1 ensures Turn(ab[i], ab[i + 1]) < 0 {
      if i >= |a| {
        assert ab[i] == b[i - |a|] && ab[i + 1] == b[i - |a| + 1];
      }
    }
  }

  /** One side of the boundary: its first corner, then its midpoint unless the side's bit is set. */
  function Side(m: bv4, corner: Lattice, mid: Lattice, bit: bv4): seq<Lattice>
  {
    [corner] + (if Has(m, bit) then [] else [mid])
  }

  /** The boundary walk of the layout: the four sides counter-clockwise from (0, 0). */
  function Ring(m: bv4): seq<Lattice>
  {
    Side(m, Lattice(0, 0), Lattice(1, 0), Back) + Side(m, Lattice(2, 0), Lattice(2, 1), Left) +
    Side(m, Lattice(2, 2), Lattice(1, 2), Forward) + Side(m, Lattice(0, 2), Lattice(0, 1), Right)
  }

  lemma LayoutRing(m: bv4)
    ensures Layout(m) == [Centre] + Ring(m)
  {
  }

  /**
   * A side and the step to the next corner sweep the same area, a quarter of the square,
   * whether or not its midpoint is present, and each fan triangle (centre, w, u) over it is clockwise.
   */
  lemma SideSweep(m: bv4, corner: Lattice, mid: Lattice, bit: bv4, next: Lattice)
    requires (corner, mid, next) in
      {(Lattice(0, 0), Lattice(1, 0), Lattice(2, 0)), (Lattice(2, 0), Lattice(2, 1), Lattice(2, 2)),
       (Lattice(2, 2), Lattice(1, 2), Lattice(0, 2)), (Lattice(0, 2), Lattice(0, 1), Lattice(0, 0))}
    ensures var s := Side(m, corner, mid, bit);
      Winds(s) && Turn(s[|s| - 1], next) < 0 && Walk(s) + Turn(s[|s| - 1], next) == -2
  {
    var s := Side(m, corner, mid, bit);
    if |s| == 2 {
      assert s[..1] == [corner];
    }
  }

  /**
   * The whole boundary walk, closed back to (0, 0), goes once round the square: each fan
   * triangle (centre, w, u) over it is clockwise, and their areas add up to the square's.
   */
  lemma RingSweep(m: bv4)
    ensures var r := Ring(m);
      |r| >= 4 && r[0] == Lattice(0, 0) && Winds(r) && Turn(r[|r| - 1], r[0]) < 0 &&
      Walk(r) + Turn(r[|r| - 1], r[0]) == -8
  {
    var s0 := Side(m, Lattice(0, 0), Lattice(1, 0), Back);
    var s1 := Side(m, Lattice(2, 0), Lattice(2, 1), Left);
    var s2 := Side(m, Lattice(2, 2), Lattice(1, 2), Forward);
    var s3 := Side(m, Lattice(0, 2), Lattice(0, 1), Right);
    SideSweep(m, Lattice(0, 0), Lattice(1, 0), Back, Lattice(2, 0));
    SideSweep(m, Lattice(2, 0), Lattice(2, 1), Left, Lattice(2, 2));
    SideSweep(m, Lattice(2, 2), Lattice(1, 2), Forward, Lattice(0, 2));
    SideSweep(m, Lattice(0, 2), Lattice(0, 1), Right, Lattice(0, 0));
    WalkAppend(s0, s1);
    WindsAppend(s0, s1);
    var a := s0 + s1;
    assert a[|a| - 1] == s1[|s1| - 1];
    WalkAppend(a, s2);
    WindsAppend(a, s2);
    var b := a + s2;
    assert b[|b| - 1] == s2[|s2| - 1];
    WalkAppend(b, s3);
    WindsAppend(b, s3);
    var r := b + s3;
    assert r == Ring(m);
    assert r[|r| - 1] == s3[|s3| - 1];
  }

  /** The fan's triangles over [centre] + r are the steps of the walk r, plus the closing one. */
  lemma {:induction false} FanWalk(r: seq<Lattice>, k: nat)
    requires |r| >= 1 && k <= |r| - 1
    ensures var vs := [Centre] + r;
      var ts := Fan(|vs|);
      |ts| == 3 * (|vs| - 1) && Indexes(ts, vs) &&
      (forall t | 0 <= t < |r| - 1 :: TriArea(vs, ts, t) == Turn(r[t], r[t + 1])) &&
      TriArea(vs, ts, |r| - 1) == Turn(r[|r| - 1], r[0]) &&
      AreaSum(vs, ts, k) == Walk(r[..k + 1])
  {
    var vs := [Centre] + r;
    FanShape(|vs|);
    if k > 0 {
      FanWalk(r, k - 1);
      assert r[..k + 1][..k] == r[..k];
    } else {
      assert r[..1] == [r[0]];
    }
  }

  /**
   * Whatever the mask, every triangle of the fan over the layout has the same (clockwise)
   * orientation, and their signed areas add up to the area of the whole 2 x 2 square.
   */
  lemma FanCoversPatch(m: bv4)
    ensures var vs := Layout(m);
      var ts := Fan(|vs|);
      |ts| == 3 * (|vs| - 1) && Indexes(ts, vs) &&
      (forall t | 0 <= t < |vs| - 1 :: TriArea(vs, ts, t) < 0) &&
      AreaSum(vs, ts, |vs| - 1) == -8
  {
    LayoutRing(m);
    RingSweep(m);
    FanOverWalk(Ring(m));
  }

  /** A fan around the centre over a boundary walk whose fan triangles are all clockwise and add up to the square. */
  lemma FanOverWalk(r: seq<Lattice>)
    requires |r| >= 1 && Winds(r) && Turn(r[|r| - 1], r[0]) < 0 && Walk(r) + Turn(r[|r| - 1], r[0]) == -8
    ensures var vs := [Centre] + r;
      var ts := Fan(|vs|);
      |ts| == 3 * (|vs| - 1) && Indexes(ts, vs) &&
      (forall t | 0 <= t < |vs| - 1 :: TriArea(vs, ts, t) < 0) &&
      AreaSum(vs, ts, |vs| - 1) == -8
  {
    FanWalk(r, |r| - 1);
    assert r[..|r|] == r;
    var vs := [Centre] + r;
    var ts := Fan(|vs|);
    assert AreaSum(vs, ts, |r|) == AreaSum(vs, ts, |r| - 1) + TriArea(vs, ts, |r| - 1);
    forall t | 0 <= t < |vs| - 1 ensures TriArea(vs, ts, t) < 0 {
      if t < |r| - 1 {
        assert TriArea(vs, ts, t) == Turn(r[t], r[t + 1]);
      }
    }
  }
}
