/**
 * The error grid of the terrain: a flat integer array of side quadSize = scale + 1 in which
 * cell (x, z) lives at index z * quadSize + x, and the roughness propagation that fills it
 * once at construction, finest detail level first.
 */
module ErrorGrid {

  // ---------------------------------------------------------------------------------------
  // Powers of two and the arithmetic the detail levels rest on
  // ---------------------------------------------------------------------------------------

  /** n is 1, 2, 4, 8, ... */
  predicate IsPow2(n: int)
    decreases n
  {
    if n <= 1 then n == 1 else n % 2 == 0 && IsPow2(n / 2)
  }

  lemma Pow2Double(e: int)
    requires IsPow2(e)
    ensures IsPow2(2 * e)
  {
    assert (2 * e) / 2 == e;
  }

  /** A power of two of at least 4 splits into two halves and four quarters. */
  lemma Pow2Halves(s: int)
    requires IsPow2(s) && s >= 4
    ensures s % 4 == 0 && IsPow2(s / 2) && s / 2 >= 2
  {
    var h := s / 2;
    assert s == 2 * h;
    assert IsPow2(h) && h >= 2;
    assert h % 2 == 0;
    assert s == 4 * (h / 2);
    ModUnique(s, 4, h / 2, 0);
  }

  /** Of two powers of two, the larger is a multiple of the smaller. */
  lemma {:induction false} Pow2Divides(e: int, s: int)
    requires IsPow2(e) && IsPow2(s) && e <= s
    ensures s % e == 0
    decreases e
  {
    if e > 1 {
      Pow2Divides(e / 2, s / 2);
      var k := (s / 2) / (e / 2);
      assert s / 2 == k * (e / 2);
      assert s == k * e;
      MultipleMod(k, e);
    }
  }

  lemma MultipleMod(k: int, e: int)
    requires e > 0
    ensures (k * e) % e == 0
  {
    ModUnique(k * e, e, k, 0);
  }

  lemma MulAtLeast(a: int, n: int)
    requires a >= 1 && n >= 0
    ensures a * n >= n
  {
  }

  lemma MulLe(a: int, b: int, e: int)
    requires a <= b && e >= 0
    ensures a * e <= b * e
  {
    assert b * e - a * e == (b - a) * e;
  }

  /**
   * A centre of level e (a power of two below the power-of-two grid scale S) lies at an
   * odd multiple of e/2: its half-edge neighbourhood stays inside [0, S].
   */
  lemma CentreInside(S: int, e: int, x: int)
    requires IsPow2(S) && IsPow2(e) && 4 <= e <= S
    requires 0 <= x < S && x % e == e / 2
    ensures e / 2 <= x && x + e / 2 <= S
  {
    Pow2Divides(e, S);
    Pow2Halves(e);
    OddMultipleInside(S, e, x);
  }

  lemma OddMultipleInside(S: int, e: int, x: int)
    requires e > 0 && e % 2 == 0 && S % e == 0
    requires 0 <= x < S && x % e == e / 2
    ensures e / 2 <= x && x + e / 2 <= S
  {
    var q := x / e;
    var m := S / e;
    assert x == q * e + e / 2;
    assert S == m * e;
    assert q >= 0 by {
      if q < 0 { MulLe(q, -1, e); }
    }
    if q >= m {
      MulLe(m, q, e);
    }
    MulLe(q + 1, m, e);
    assert x + e / 2 == (q + 1) * e;
    if q >= 0 { MulLe(0, q, e); }
  }

  /** Stepping a centre by a whole level keeps it a centre of that level. */
  lemma NextCentre(e: int, x: int)
    requires e > 0 && x % e == e / 2
    ensures (x + e) % e == e / 2
  {
    var q := x / e;
    assert x == q * e + e / 2;
    assert x + e == (q + 1) * e + e / 2;
    assert 0 <= e / 2 < e;
    ModUnique(x + e, e, q + 1, e / 2);
  }

  /** Euclidean division is determined by its quotient and remainder. */
  lemma ModUnique(a: int, e: int, q: int, r: int)
    requires e > 0 && 0 <= r < e && a == q * e + r
    ensures a % e == r
  {
    var q' := a / e;
    var r' := a % e;
    assert (q - q') * e == r' - r;
    if q - q' >= 1 {
      MulAtLeast(q - q', e);
    } else if q' - q >= 1 {
      MulAtLeast(q' - q, e);
    }
  }

  // ---------------------------------------------------------------------------------------
  // Flat indexing: cell (x, z) of a grid of side n is element z * n + x
  // ---------------------------------------------------------------------------------------

  function Idx(n: int, x: int, z: int): (i: int)
    ensures 0 <= x < n && 0 <= z < n ==> 0 <= i < n * n
  {
    if 0 <= x < n && 0 <= z < n then IdxInRange(n, x, z); z * n + x else z * n + x
  }

  /** The flat index the source computes, z * n + x, is Idx. */
  lemma FlatIndex(n: int, x: int, z: int, i: int)
    requires i == Idx(n, x, z)
    ensures z * n + x == i
  {
  }

  /** Every cell of the square has an index inside the flat array. */
  lemma IdxInRange(n: int, x: int, z: int)
    requires 0 <= x < n && 0 <= z < n
    ensures 0 <= z * n + x < n * n
  {
    MulLe(0, z, n);
    MulLe(z + 1, n, n);
    assert (z + 1) * n == z * n + n;
  }

  /** Distinct cells have distinct indices: no two cells of the square share an element. */
  lemma IdxInjective(n: int, x1: int, z1: int, x2: int, z2: int)
    requires 0 <= x1 < n && 0 <= x2 < n
    ensures Idx(n, x1, z1) == Idx(n, x2, z2) <==> x1 == x2 && z1 == z2
  {
    if z1 > z2 {
      MulAtLeast(z1 - z2, n);
      assert z1 * n - z2 * n == (z1 - z2) * n;
    } else if z1 < z2 {
      MulAtLeast(z2 - z1, n);
      assert z2 * n - z1 * n == (z2 - z1) * n;
    }
  }

  /** Flat index i of a grid of side n is cell (i % n, i / n). */
  lemma IdxSplit(n: int, i: int)
    requires n > 0 && 0 <= i < n * n
    ensures 0 <= i % n < n && 0 <= i / n < n && i == Idx(n, i % n, i / n)
  {
    if i / n >= n {
      MulLe(n, i / n, n);
    }
  }

  // ---------------------------------------------------------------------------------------
  // The float arithmetic of PropagateRoughness, on exact reals
  // ---------------------------------------------------------------------------------------

  /** Mathf.CeilToInt: the least integer not below r. */
  function CeilToInt(r: real): (c: int)
    ensures r <= c as real < r + 1.0
  {
    -((-r).Floor)
  }

  /** The (int) cast of a float: truncation toward zero. */
  function TruncToInt(r: real): (t: int)
    ensures 0.0 <= r ==> 0 <= t && t as real <= r < t as real + 1.0
    ensures r < 0.0 ==> t <= 0 && t as real - 1.0 < r <= t as real
  {
    if r >= 0.0 then r.Floor else -((-r).Floor)
  }

  function Max(a: int, b: int): int
  {
    if a >= b then a else b
  }

  function MaxR(a: real, b: real): real
  {
    if a >= b then a else b
  }

  function AbsR(r: real): real
  {
    if r < 0.0 then -r else r
  }

  /** A point of the height field, in grid coordinates. */
  datatype Pt = Pt(x: int, z: int)

  /** A midpoint m with the two points a and b that flank it. */
  datatype Span = Span(a: Pt, b: Pt, m: Pt)

  /** How far the height at a span's midpoint lies from the mean of the heights at its ends. */
  function Deviation(h: (int, int) -> real, s: Span): (d: real)
    ensures d >= 0.0
  {
    AbsR((h(s.a.x, s.a.z) + h(s.b.x, s.b.z)) / 2.0 - h(s.m.x, s.m.z))
  }

  /** The largest deviation over the spans, taken in order as a running maximum. */
  function MaxDeviation(h: (int, int) -> real, ss: seq<Span>): real
    requires ss != []
  {
    if |ss| == 1 then Deviation(h, ss[0])
    else MaxR(Deviation(h, ss[|ss| - 1]), MaxDeviation(h, ss[..|ss| - 1]))
  }

  /** The highest sample, taken in order as a running maximum. */
  function MaxHeight(h: (int, int) -> real, ps: seq<Pt>): real
    requires ps != []
  {
    if |ps| == 1 then h(ps[0].x, ps[0].z)
    else MaxR(h(ps[|ps| - 1].x, ps[|ps| - 1].z), MaxHeight(h, ps[..|ps| - 1]))
  }

  /** MaxDeviation is the largest deviation: no span deviates more, and one deviates exactly that much. */
  lemma {:induction false} MaxDeviationIsMax(h: (int, int) -> real, ss: seq<Span>)
    requires ss != []
    ensures forall i | 0 <= i < |ss| :: Deviation(h, ss[i]) <= MaxDeviation(h, ss)
    ensures exists i | 0 <= i < |ss| :: MaxDeviation(h, ss) == Deviation(h, ss[i])
  {
    if |ss| == 1 {
      assert MaxDeviation(h, ss) == Deviation(h, ss[0]);
    } else {
      var p := ss[..|ss| - 1];
      MaxDeviationIsMax(h, p);
      var w :| 0 <= w < |p| && MaxDeviation(h, p) == Deviation(h, p[w]);
      forall i | 0 <= i < |ss| ensures Deviation(h, ss[i]) <= MaxDeviation(h, ss) {
        if i < |p| {
          assert ss[i] == p[i];
        }
      }
      if Deviation(h, ss[|ss| - 1]) < MaxDeviation(h, p) {
        assert ss[w] == p[w];
      }
    }
  }

  /** MaxHeight is the highest sample: no point is higher, and one is exactly that high. */
  lemma {:induction false} MaxHeightIsMax(h: (int, int) -> real, ps: seq<Pt>)
    requires ps != []
    ensures forall i | 0 <= i < |ps| :: h(ps[i].x, ps[i].z) <= MaxHeight(h, ps)
    ensures exists i | 0 <= i < |ps| :: MaxHeight(h, ps) == h(ps[i].x, ps[i].z)
  {
    if |ps| == 1 {
      assert MaxHeight(h, ps) == h(ps[0].x, ps[0].z);
    } else {
      var p := ps[..|ps| - 1];
      MaxHeightIsMax(h, p);
      var w :| 0 <= w < |p| && MaxHeight(h, p) == h(p[w].x, p[w].z);
      forall i | 0 <= i < |ps| ensures h(ps[i].x, ps[i].z) <= MaxHeight(h, ps) {
        if i < |p| {
          assert ps[i] == p[i];
        }
      }
      if h(ps[|ps| - 1].x, ps[|ps| - 1].z) < MaxHeight(h, p) {
        assert ps[w] == p[w];
      }
    }
  }

  /**
   * The six spans of the square of side e centred on (x, z) whose deviations make up d2: the
   * midpoints of the top, right, bottom and left edges, then the centre across both diagonals.
   */
  function Spans(e: int, x: int, z: int): seq<Span>
  {
    var o := e / 2;
    [Span(Pt(x - o, z + o), Pt(x + o, z + o), Pt(x, z + o)),
     Span(Pt(x + o, z + o), Pt(x + o, z - o), Pt(x + o, z)),
     Span(Pt(x - o, z - o), Pt(x + o, z - o), Pt(x, z - o)),
     Span(Pt(x - o, z + o), Pt(x - o, z - o), Pt(x - o, z)),
     Span(Pt(x - o, z - o), Pt(x + o, z + o), Pt(x, z)),
     Span(Pt(x + o, z - o), Pt(x - o, z + o), Pt(x, z))]
  }

  /** d2 scaled to an 8-bit magnitude: CeilToInt(d2 * 255 * 4 / edgeLen). */
  function ScaledRoughness(h: (int, int) -> real, e: int, x: int, z: int): int
    requires e > 0
  {
    CeilToInt(MaxDeviation(h, Spans(e, x, z)) * 255.0 * 4.0 / e as real)
  }

  /**
   * The samples behind the height proxy: at the finest level the nine points of the 3x3
   * neighbourhood at offsets of e / 2, above it the four points at the quarter offsets e / 4.
   */
  function Samples(e: int, x: int, z: int): (ps: seq<Pt>)
    ensures ps != []
  {
    if e == 4 then
      var o := e / 2;
      [Pt(x + o, z + o), Pt(x + o, z), Pt(x + o, z - o), Pt(x, z - o), Pt(x - o, z - o),
       Pt(x - o, z), Pt(x - o, z + o), Pt(x, z + o), Pt(x, z)]
    else
      var c := e / 4;
      [Pt(x + c, z + c), Pt(x + c, z - c), Pt(x - c, z - c), Pt(x - c, z + c)]
  }

  /** The height proxy stored one cell right of a centre: the highest sample scaled to 255. */
  function HeightProxy(h: (int, int) -> real, e: int, x: int, z: int): int
  {
    CeilToInt(MaxHeight(h, Samples(e, x, z)) * 255.0)
  }

  /** (int)(upperBound * v): a neighbour's value scaled by upperBound and truncated. */
  function Bounded(ub: real, v: int): int
  {
    TruncToInt(ub * v as real)
  }

  // ---------------------------------------------------------------------------------------
  // One centre of one level
  // ---------------------------------------------------------------------------------------

  /** (x, z) is a centre of level e whose half-edge neighbourhood lies inside a grid of side n. */
  predicate CentreOk(n: int, e: int, x: int, z: int)
  {
    e >= 4 && e % 2 == 0 && e / 2 <= x && x + e / 2 < n && e / 2 <= z && z + e / 2 < n
  }

  /** The centre cell of (x, z) and its four neighbours at +-e/2, in the order the source reads them. */
  function Around(n: int, e: int, x: int, z: int): seq<int>
  {
    var o := e / 2;
    [Idx(n, x, z), Idx(n, x - o, z), Idx(n, x + o, z), Idx(n, x, z - o), Idx(n, x, z + o)]
  }

  lemma AroundInside(n: int, e: int, x: int, z: int)
    requires CentreOk(n, e, x, z)
    ensures forall k | 0 <= k < 5 :: 0 <= Around(n, e, x, z)[k] < n * n
  {
  }

  /** v raised, in order, to the bounded value of each cell of cs: a running maximum. */
  function FloorBy(g: seq<int>, ub: real, cs: seq<int>, v: int): int
    requires forall k | 0 <= k < |cs| :: 0 <= cs[k] < |g|
  {
    if cs == [] then v
    else Max(Bounded(ub, g[cs[|cs| - 1]]), FloorBy(g, ub, cs[..|cs| - 1], v))
  }

  /**
   * The error value PropagateRoughness computes for centre (x, z) of level e: the scaled
   * roughness, at least 1, and above the finest level floored by the bounded values of the
   * centre cell and of its four neighbours at +-e/2.
   */
  function ErrorValue(g: seq<int>, n: int, h: (int, int) -> real, ub: real, e: int, x: int, z: int): int
    requires |g| == n * n && CentreOk(n, e, x, z)
  {
    var v := Max(1, ScaledRoughness(h, e, x, z));
    if e == 4 then v
    else
      AroundInside(n, e, x, z);
      FloorBy(g, ub, Around(n, e, x, z), v)
  }

  /** FloorBy is the least value that is at least v and at least every bounded cell. */
  lemma {:induction false} FloorBySpec(g: seq<int>, ub: real, cs: seq<int>, v: int)
    requires forall k | 0 <= k < |cs| :: 0 <= cs[k] < |g|
    ensures var r := FloorBy(g, ub, cs, v);
            r >= v && (forall k | 0 <= k < |cs| :: r >= Bounded(ub, g[cs[k]])) &&
            (r == v || exists k | 0 <= k < |cs| :: r == Bounded(ub, g[cs[k]]))
    decreases |cs|
  {
    if cs != [] {
      var p := cs[..|cs| - 1];
      FloorBySpec(g, ub, p, v);
      var r := FloorBy(g, ub, cs, v);
      forall k | 0 <= k < |cs| ensures r >= Bounded(ub, g[cs[k]]) {
        if k < |cs| - 1 {
          assert cs[k] == p[k];
        }
      }
      if r != v && r != Bounded(ub, g[cs[|cs| - 1]]) {
        var k :| 0 <= k < |p| && FloorBy(g, ub, p, v) == Bounded(ub, g[p[k]]);
        assert cs[k] == p[k];
      }
    }
  }

  /**
   * The error value is at least 1 and at least the scaled roughness; above the finest level
   * it is also at least the bounded value of the centre cell and of each neighbour at +-e/2;
   * and it is one of those candidates, not something larger.
   */
  lemma ErrorValueBounds(g: seq<int>, n: int, h: (int, int) -> real, ub: real, e: int, x: int, z: int)
    requires |g| == n * n && CentreOk(n, e, x, z)
    ensures var v := ErrorValue(g, n, h, ub, e, x, z);
            var a := Around(n, e, x, z);
            v >= 1 && v >= ScaledRoughness(h, e, x, z) &&
            (e != 4 ==> forall k | 0 <= k < 5 :: v >= Bounded(ub, g[a[k]])) &&
            (v == Max(1, ScaledRoughness(h, e, x, z)) ||
             (e != 4 && exists k | 0 <= k < 5 :: v == Bounded(ub, g[a[k]])))
  {
    AroundInside(n, e, x, z);
    if e != 4 {
      FloorBySpec(g, ub, Around(n, e, x, z), Max(1, ScaledRoughness(h, e, x, z)));
    }
  }

  /** The four diagonal cells of centre (x, z) at level e, in the order the source updates them. */
  function Corners(n: int, e: int, x: int, z: int): seq<int>
  {
    var o := e / 2;
    [Idx(n, x - o, z - o), Idx(n, x - o, z + o), Idx(n, x + o, z + o), Idx(n, x + o, z - o)]
  }

  /** The cells one centre step may write. */
  function Touched(n: int, e: int, x: int, z: int): set<int>
  {
    var c := Corners(n, e, x, z);
    {Idx(n, x + 1, z), Idx(n, x, z), Idx(n, x - 1, z), c[0], c[1], c[2], c[3]}
  }

  /** The three cells of the centre's row and its four diagonal cells are seven distinct cells of the grid. */
  lemma CentreCells(n: int, e: int, x: int, z: int)
    requires CentreOk(n, e, x, z)
    ensures var right, mid, left := Idx(n, x + 1, z), Idx(n, x, z), Idx(n, x - 1, z);
            var c := Corners(n, e, x, z);
            0 <= left && left + 1 == mid && mid + 1 == right && right < n * n &&
            (forall k | 0 <= k < 4 :: 0 <= c[k] < n * n && c[k] != right && c[k] != mid && c[k] != left) &&
            (forall j, k | 0 <= j < k < 4 :: c[j] != c[k])
  {
    IdxInRange(n, x + 1, z);
    IdxInRange(n, x - 1, z);
    RowApartFromCorners(n, e, x, z, x + 1);
    RowApartFromCorners(n, e, x, z, x);
    RowApartFromCorners(n, e, x, z, x - 1);
    CornersDistinct(n, e, x, z);
  }

  /**
   * The first k of the seven writes of centre (x, z) of level e, in the source's order: the height
   * proxy p to the cell right of the centre, the error value v to the centre and to the cell on
   * its left, then each diagonal cell keeps the larger of its value and v.
   */
  function Stores(q: seq<int>, n: int, e: int, x: int, z: int, v: int, p: int, k: nat): (r: seq<int>)
    requires |q| == n * n && CentreOk(n, e, x, z) && k <= 7
    ensures |r| == |q|
  {
    if k == 0 then q
    else
      var r := Stores(q, n, e, x, z, v, p, k - 1);
      CentreCells(n, e, x, z);
      if k == 1 then r[Idx(n, x + 1, z) := p]
      else if k == 2 then r[Idx(n, x, z) := v]
      else if k == 3 then r[Idx(n, x - 1, z) := v]
      else
        var c := Corners(n, e, x, z)[k - 4];
        r[c := Max(r[c], v)]
  }

  /** The seven writes as one update of the grid they start from. */
  lemma StoresInFull(q: seq<int>, n: int, e: int, x: int, z: int, v: int, p: int)
    requires |q| == n * n && CentreOk(n, e, x, z)
    ensures var c := Corners(n, e, x, z);
            0 <= c[0] < |q| && 0 <= c[1] < |q| && 0 <= c[2] < |q| && 0 <= c[3] < |q| &&
            0 <= Idx(n, x - 1, z) && Idx(n, x + 1, z) < |q| &&
            Stores(q, n, e, x, z, v, p, 7) ==
              q[Idx(n, x + 1, z) := p][Idx(n, x, z) := v][Idx(n, x - 1, z) := v]
               [c[0] := Max(q[c[0]], v)][c[1] := Max(q[c[1]], v)][c[2] := Max(q[c[2]], v)][c[3] := Max(q[c[3]], v)]
  {
    CentreCells(n, e, x, z);
    var c := Corners(n, e, x, z);
    var w3 := q[Idx(n, x + 1, z) := p][Idx(n, x, z) := v][Idx(n, x - 1, z) := v];
    assert Stores(q, n, e, x, z, v, p, 1) == q[Idx(n, x + 1, z) := p];
    assert Stores(q, n, e, x, z, v, p, 2) == q[Idx(n, x + 1, z) := p][Idx(n, x, z) := v];
    assert Stores(q, n, e, x, z, v, p, 3) == w3;
    assert w3[c[0]] == q[c[0]] && w3[c[1]] == q[c[1]] && w3[c[2]] == q[c[2]] && w3[c[3]] == q[c[3]];
    var w4 := w3[c[0] := Max(q[c[0]], v)];
    assert Stores(q, n, e, x, z, v, p, 4) == w4;
    var w5 := w4[c[1] := Max(q[c[1]], v)];
    assert Stores(q, n, e, x, z, v, p, 5) == w5;
    var w6 := w5[c[2] := Max(q[c[2]], v)];
    assert Stores(q, n, e, x, z, v, p, 6) == w6;
  }

  /** Three stores to distinct row cells, then four maxima into distinct other cells. */
  lemma SevenStores(g: seq<int>, right: int, mid: int, left: int, c: seq<int>, p: int, v: int)
    requires |c| == 4 && 0 <= right < |g| && 0 <= mid < |g| && 0 <= left < |g|
    requires forall k | 0 <= k < 4 :: 0 <= c[k] < |g| && c[k] != right && c[k] != mid && c[k] != left
    requires right != mid && right != left && mid != left
    requires forall j, k | 0 <= j < k < 4 :: c[j] != c[k]
    ensures var r := g[right := p][mid := v][left := v]
                      [c[0] := Max(g[c[0]], v)][c[1] := Max(g[c[1]], v)][c[2] := Max(g[c[2]], v)][c[3] := Max(g[c[3]], v)];
            r[mid] == v && r[left] == v && r[right] == p &&
            (forall k | 0 <= k < 4 :: r[c[k]] == Max(g[c[k]], v) && r[c[k]] >= g[c[k]]) &&
            (forall i | 0 <= i < |g| && i != right && i != mid && i != left && i !in c :: r[i] == g[i])
  {
  }

  /**
   * What the seven writes leave: v in the centre cell and in the cell to its left, p in the cell to
   * its right, and the larger of the old value and v in each diagonal cell, which so never decreases.
   */
  lemma StoresEffect(q: seq<int>, n: int, e: int, x: int, z: int, v: int, p: int)
    requires |q| == n * n && CentreOk(n, e, x, z)
    ensures var r, c := Stores(q, n, e, x, z, v, p, 7), Corners(n, e, x, z);
            r[Idx(n, x, z)] == v && r[Idx(n, x - 1, z)] == v && r[Idx(n, x + 1, z)] == p &&
            (forall k | 0 <= k < 4 :: 0 <= c[k] < |q| && r[c[k]] == Max(q[c[k]], v) && r[c[k]] >= q[c[k]])
  {
    CentreCells(n, e, x, z);
    StoresInFull(q, n, e, x, z, v, p);
    SevenStores(q, Idx(n, x + 1, z), Idx(n, x, z), Idx(n, x - 1, z), Corners(n, e, x, z), p, v);
  }

  /** The seven writes change no cell but the centre's row triple and its four diagonal cells. */
  lemma StoresFrame(q: seq<int>, n: int, e: int, x: int, z: int, v: int, p: int)
    requires |q| == n * n && CentreOk(n, e, x, z)
    ensures var r := Stores(q, n, e, x, z, v, p, 7);
            forall i | 0 <= i < |q| && i !in Touched(n, e, x, z) :: r[i] == q[i]
  {
    CentreCells(n, e, x, z);
    StoresInFull(q, n, e, x, z, v, p);
    SevenStores(q, Idx(n, x + 1, z), Idx(n, x, z), Idx(n, x - 1, z), Corners(n, e, x, z), p, v);
  }

  lemma CornersDistinct(n: int, e: int, x: int, z: int)
    requires CentreOk(n, e, x, z)
    ensures var c := Corners(n, e, x, z);
            (forall k | 0 <= k < 4 :: 0 <= c[k] < n * n) &&
            forall j, k | 0 <= j < k < 4 :: c[j] != c[k]
  {
    var o := e / 2;
    IdxInjective(n, x - o, z - o, x - o, z + o);
    IdxInjective(n, x - o, z - o, x + o, z + o);
    IdxInjective(n, x - o, z - o, x + o, z - o);
    IdxInjective(n, x - o, z + o, x + o, z + o);
    IdxInjective(n, x - o, z + o, x + o, z - o);
    IdxInjective(n, x + o, z + o, x + o, z - o);
  }

  /** A cell of the centre's row is none of its four diagonal cells. */
  lemma RowApartFromCorners(n: int, e: int, x: int, z: int, x': int)
    requires CentreOk(n, e, x, z) && 0 <= x' < n
    ensures Idx(n, x', z) !in Corners(n, e, x, z)
  {
    var o := e / 2;
    IdxInjective(n, x', z, x - o, z - o);
    IdxInjective(n, x', z, x - o, z + o);
    IdxInjective(n, x', z, x + o, z + o);
    IdxInjective(n, x', z, x + o, z - o);
  }

  // ---------------------------------------------------------------------------------------
  // PropagateRoughness as a function of the grid it starts from
  // ---------------------------------------------------------------------------------------

  /** A detail level e that PropagateRoughness walks on a grid of scale S. */
  predicate LevelOk(S: int, e: int)
  {
    IsPow2(S) && IsPow2(e) && 4 <= e <= S
  }

  /** x is one of e / 2, e / 2 + e, e / 2 + 2e, ...: a centre coordinate of level e. */
  predicate OnLevel(e: int, x: int)
    requires e > 0
    decreases x
  {
    if x < e then x == e / 2 else OnLevel(e, x - e)
  }

  lemma {:induction false} OnLevelMod(e: int, x: int)
    requires e > 0 && OnLevel(e, x)
    ensures 0 <= x && x % e == e / 2
    decreases x
  {
    if x < e {
      ModUnique(x, e, 0, e / 2);
    } else {
      OnLevelMod(e, x - e);
      NextCentre(e, x - e);
    }
  }

  lemma {:induction false} ModOnLevel(e: int, x: int)
    requires e > 0 && 0 <= x && x % e == e / 2
    ensures OnLevel(e, x)
    decreases x
  {
    if x >= e {
      ModUnique(x - e, e, x / e - 1, e / 2);
      ModOnLevel(e, x - e);
    }
  }

  /** A centre of a level lies inside the grid with its half-edge neighbourhood. */
  lemma CentreOkAt(S: int, e: int, x: int, z: int)
    requires LevelOk(S, e) && OnLevel(e, x) && OnLevel(e, z) && x < S && z < S
    ensures CentreOk(S + 1, e, x, z)
  {
    OnLevelMod(e, x);
    OnLevelMod(e, z);
    CentreInside(S, e, x);
    CentreInside(S, e, z);
    Pow2Halves(e);
  }

  /** The coordinate just past the last centre of a level: S + e / 2. */
  lemma LevelEnd(S: int, e: int, x: int)
    requires LevelOk(S, e)
    ensures OnLevel(e, S + e / 2) && e / 2 < e && OnLevel(e, e / 2)
    ensures OnLevel(e, x) && S <= x <= S + e / 2 ==> x == S + e / 2
  {
    Pow2Divides(e, S);
    Pow2Halves(e);
    var m := S / e;
    assert S == m * e;
    ModUnique(S + e / 2, e, m, e / 2);
    ModOnLevel(e, S + e / 2);
    if OnLevel(e, x) && S <= x <= S + e / 2 {
      OnLevelMod(e, x);
      ModUnique(x, e, m, x - S);
    }
  }

  /** The next centre of a row is a centre of the level again, at most just past the last one. */
  lemma NextOnLevel(S: int, e: int, x: int)
    requires LevelOk(S, e) && OnLevel(e, x) && x < S
    ensures OnLevel(e, x + e) && x + e <= S + e / 2
  {
    OnLevelMod(e, x);
    CentreInside(S, e, x);
  }

  /** The only power of two above S and at most 2S is 2S. */
  lemma {:induction false} Pow2Between(S: int, e: int)
    requires IsPow2(S) && IsPow2(e) && S < e <= 2 * S
    ensures e == 2 * S
    decreases S
  {
    if S > 1 {
      Pow2Between(S / 2, e / 2);
    }
  }

  /**
   * (e, z, x) is a point the loops of PropagateRoughness reach on a grid of scale S: e a level
   * from 4 up to 2S (2S is where the outer loop stops), z and x centre coordinates of that level
   * at most just past the last centre, and x at the start of its row unless z is a row inside
   * the grid.
   */
  predicate WalkPoint(S: int, e: int, z: int, x: int)
  {
    IsPow2(S) && S >= 2 && IsPow2(e) && 4 <= e <= 2 * S &&
    OnLevel(e, z) && OnLevel(e, x) && z <= S + e / 2 && x <= S + e / 2 && (z < S || x == e / 2)
  }

  /** The point the walk reaches just before (e, z, x), when (e, z, x) is not the very first. */
  lemma WalkBack(S: int, e: int, z: int, x: int)
    requires WalkPoint(S, e, z, x)
    ensures x >= e ==> LevelOk(S, e) && z < S && x - e < S && WalkPoint(S, e, z, x - e)
    ensures x < e && z >= e ==> LevelOk(S, e) && WalkPoint(S, e, z - e, S + e / 2)
    ensures x < e && z < e && e > 4 ==> WalkPoint(S, e / 2, S + e / 4, e / 4)
  {
    if e > S {
      Pow2Between(S, e);
      OnLevelMod(e, z);
      MultipleMod(1, e);
    }
    if e <= S {
      LevelEnd(S, e, x);
    } else if e > 4 {
      Pow2Halves(e);
      LevelEnd(S, e / 2, 0);
      assert (e / 2) / 2 == e / 4;
    }
    if x < e && z < e && e > 4 {
      Pow2Halves(e);
      LevelEnd(S, e / 2, 0);
      assert (e / 2) / 2 == e / 4;
    }
  }

  /** (e, z, x) is a centre inside the grid: the loops give it its seven writes. */
  predicate AtCentre(S: int, e: int, z: int, x: int)
  {
    WalkPoint(S, e, z, x) && e <= S && z < S && x < S
  }

  /**
   * The grid when PropagateRoughness, started on g, arrives at centre (x, z) of level e: in loop
   * order, every centre of the levels below e, of the rows of level e below z and of row z left
   * of x has done its seven writes.
   */
  function Reached(g: seq<int>, S: int, h: (int, int) -> real, ub: real, e: int, z: int, x: int): (r: seq<int>)
    requires WalkPoint(S, e, z, x) && |g| == (S + 1) * (S + 1)
    ensures |r| == |g|
    decreases e, z, x, 0
  {
    WalkBack(S, e, z, x);
    if x >= e then After(g, S, h, ub, e, z, x - e)
    else if z >= e then Reached(g, S, h, ub, e, z - e, S + e / 2)
    else if e > 4 then Reached(g, S, h, ub, e / 2, S + e / 4, e / 4)
    else g
  }

  /**
   * The two values centre (x, z) of level e writes: its error value, read from the grid the walk
   * has reached there, and its height proxy.
   */
  function StepValues(g: seq<int>, S: int, h: (int, int) -> real, ub: real, e: int, z: int, x: int): (vp: (int, int))
    requires AtCentre(S, e, z, x) && |g| == (S + 1) * (S + 1)
    decreases e, z, x, 1
  {
    CentreOkAt(S, e, x, z);
    (ErrorValue(Reached(g, S, h, ub, e, z, x), S + 1, h, ub, e, x, z), HeightProxy(h, e, x, z))
  }

  /** The grid just after centre (x, z) of level e has done its seven writes. */
  function After(g: seq<int>, S: int, h: (int, int) -> real, ub: real, e: int, z: int, x: int): (r: seq<int>)
    requires AtCentre(S, e, z, x) && |g| == (S + 1) * (S + 1)
    ensures |r| == |g|
    decreases e, z, x, 2
  {
    CentreOkAt(S, e, x, z);
    var vp := StepValues(g, S, h, ub, e, z, x);
    Stores(Reached(g, S, h, ub, e, z, x), S + 1, e, x, z, vp.0, vp.1, 7)
  }

  /** The values a centre writes are its error value on the grid reached there and its height proxy. */
  lemma StepValuesAre(g: seq<int>, S: int, h: (int, int) -> real, ub: real, e: int, z: int, x: int)
    requires AtCentre(S, e, z, x) && |g| == (S + 1) * (S + 1)
    ensures CentreOk(S + 1, e, x, z)
    ensures StepValues(g, S, h, ub, e, z, x) ==
              (ErrorValue(Reached(g, S, h, ub, e, z, x), S + 1, h, ub, e, x, z), HeightProxy(h, e, x, z))
  {
    CentreOkAt(S, e, x, z);
  }

  /** The grid PropagateRoughness leaves: every level from 4 up to the scale, walked in full. */
  function Roughened(g: seq<int>, S: int, h: (int, int) -> real, ub: real): (r: seq<int>)
    requires IsPow2(S) && S >= 2 && |g| == (S + 1) * (S + 1)
    ensures |r| == |g|
  {
    Reached(g, S, h, ub, 2 * S, S, S)
  }

  /** The centre after (x, z) on row z of level e is still a point of the walk. */
  lemma NextCentrePoint(S: int, e: int, z: int, x: int)
    requires AtCentre(S, e, z, x)
    ensures WalkPoint(S, e, z, x + e)
  {
    NextOnLevel(S, e, x);
  }

  /** The grid after a centre's writes is Stores of its error value and height proxy on the grid before them. */
  lemma AfterCentre(g: seq<int>, S: int, h: (int, int) -> real, ub: real, e: int, z: int, x: int)
    requires AtCentre(S, e, z, x) && |g| == (S + 1) * (S + 1)
    ensures CentreOk(S + 1, e, x, z)
    ensures var q := Reached(g, S, h, ub, e, z, x);
            After(g, S, h, ub, e, z, x) ==
              Stores(q, S + 1, e, x, z, ErrorValue(q, S + 1, h, ub, e, x, z), HeightProxy(h, e, x, z), 7)
  {
    StepValuesAre(g, S, h, ub, e, z, x);
  }

  /**
   * The inner loop's step: the grid at the next centre of row z is the grid at this centre after
   * this centre's seven writes of its error value and height proxy.
   */
  lemma WalkNextCentre(g: seq<int>, S: int, h: (int, int) -> real, ub: real, e: int, z: int, x: int)
    requires AtCentre(S, e, z, x) && |g| == (S + 1) * (S + 1)
    ensures WalkPoint(S, e, z, x + e) && CentreOk(S + 1, e, x, z)
    ensures var q := Reached(g, S, h, ub, e, z, x);
            Reached(g, S, h, ub, e, z, x + e) ==
              Stores(q, S + 1, e, x, z, ErrorValue(q, S + 1, h, ub, e, x, z), HeightProxy(h, e, x, z), 7)
  {
    NextCentrePoint(S, e, z, x);
    WalkBack(S, e, z, x + e);
    assert Reached(g, S, h, ub, e, z, x + e) == After(g, S, h, ub, e, z, x);
    AfterCentre(g, S, h, ub, e, z, x);
  }

  /** The middle loop's step: the start of row z + e is where row z ends. */
  lemma WalkNextRow(g: seq<int>, S: int, h: (int, int) -> real, ub: real, e: int, z: int)
    requires WalkPoint(S, e, z, e / 2) && |g| == (S + 1) * (S + 1) && e <= S && z < S
    ensures WalkPoint(S, e, z, S + e / 2) && WalkPoint(S, e, z + e, e / 2)
    ensures Reached(g, S, h, ub, e, z + e, e / 2) == Reached(g, S, h, ub, e, z, S + e / 2)
  {
    LevelEnd(S, e, 0);
    NextOnLevel(S, e, z);
    WalkBack(S, e, z + e, e / 2);
  }

  /** The outer loop's step: the start of level 2e is where the last row of level e ends. */
  lemma WalkNextLevel(g: seq<int>, S: int, h: (int, int) -> real, ub: real, e: int)
    requires IsPow2(S) && S >= 2 && IsPow2(e) && 4 <= e <= S && |g| == (S + 1) * (S + 1)
    ensures WalkPoint(S, e, S + e / 2, e / 2) && WalkPoint(S, 2 * e, e, e)
    ensures Reached(g, S, h, ub, 2 * e, e, e) == Reached(g, S, h, ub, e, S + e / 2, e / 2)
  {
    LevelEnd(S, e, 0);
    Pow2Double(e);
    var d := 2 * e;
    assert d / 2 == e && d / 4 == e / 2;
    WalkBack(S, d, e, e);
  }

  // ---------------------------------------------------------------------------------------
  // What the propagation leaves in a patch's cell and in the cell to its left
  // ---------------------------------------------------------------------------------------

  /**
   * (x0, z0) is the cell of a patch of edge s in a grid of scale S: both coordinates are odd
   * multiples of s / 2 strictly inside the grid, as for the root and every patch SubDivide makes.
   */
  predicate OnPatchGrid(S: int, s: int, x0: int, z0: int)
  {
    IsPow2(S) && IsPow2(s) && 2 <= s <= S && 0 < x0 < S && 0 < z0 < S && x0 % s == s / 2 && z0 % s == s / 2
  }

  /** At walk point (e, z, x) centre (x0, z0) of level s has done its writes. */
  predicate Passed(s: int, x0: int, z0: int, e: int, z: int, x: int)
  {
    e > s || (e == s && (z > z0 || (z == z0 && x > x0)))
  }

  /** Two numbers with the same remainder are at least a whole modulus apart. */
  lemma SameResidueApart(a: int, b: int, s: int)
    requires s > 0 && a % s == b % s && a < b
    ensures a + s <= b
  {
    var qa, qb := a / s, b / s;
    assert b - a == (qb - qa) * s;
    if qb - qa < 1 {
      MulLe(qb - qa, 0, s);
    } else {
      MulAtLeast(qb - qa, s);
    }
  }

  /** A multiple of a multiple of s is a multiple of s. */
  lemma MultipleOfMultiple(a: int, q: int, d: int, s: int)
    requires s > 0 && d % s == 0 && a == q * d
    ensures a % s == 0
  {
    var m := d / s;
    assert d == m * s;
    assert a == (q * m) * s;
    MultipleMod(q * m, s);
  }

  /** Of two powers of two s <= e, s divides e, and divides e / 2 as well when s < e. */
  lemma Pow2Below(s: int, e: int)
    requires IsPow2(e) && IsPow2(s) && 2 <= s <= e && e >= 4
    ensures e % s == 0 && e % 2 == 0 && (s < e ==> (e / 2) % s == 0)
  {
    Pow2Divides(s, e);
    Pow2Halves(e);
    if s < e {
      if e < 2 * s {
        Pow2Between(s, e);
      }
      Pow2Divides(s, e / 2);
    }
  }

  /**
   * The rows a centre of level e writes: the diagonal rows z -+ e / 2 are multiples of e, so of
   * every s dividing e; the centre's own row is an odd multiple of e / 2, so a multiple of every
   * s dividing e / 2.
   */
  lemma LevelRows(e: int, s: int, z: int)
    requires s > 0 && e > 0 && e % 2 == 0 && e % s == 0 && z % e == e / 2
    ensures (z - e / 2) % s == 0 && (z + e / 2) % s == 0
    ensures (e / 2) % s == 0 ==> z % s == 0
  {
    var q, d := z / e, e / 2;
    assert e == 2 * d;
    assert z == q * e + d;
    MultipleOfMultiple(z - d, q, e, s);
    assert (q + 1) * e == q * e + e;
    MultipleOfMultiple(z + d, q + 1, e, s);
    if d % s == 0 {
      assert q * e == 2 * (q * d);
      assert (2 * q + 1) * d == 2 * (q * d) + d;
      MultipleOfMultiple(z, 2 * q + 1, d, s);
    }
  }

  /**
   * A centre of level at least s other than centre (x0, z0) of level s writes neither the patch
   * cell (x0, z0) nor the cell to its left. The cell of a patch of edge 2 is on an odd row, which
   * no centre of any level writes.
   */
  lemma StepMisses(S: int, s: int, x0: int, z0: int, e: int, z: int, x: int)
    requires AtCentre(S, e, z, x) && OnPatchGrid(S, s, x0, z0)
    requires s == 2 || (s <= e && !(e == s && z == z0 && x == x0))
    ensures Idx(S + 1, x0, z0) !in Touched(S + 1, e, x, z) && Idx(S + 1, x0 - 1, z0) !in Touched(S + 1, e, x, z)
  {
    CentreOkAt(S, e, x, z);
    OnLevelMod(e, z);
    OnLevelMod(e, x);
    Pow2Below(s, e);
    CentresApart(s, e, x0, z0, x, z);
    RowApart(S + 1, x0, z0, e, x, z);
    RowApart(S + 1, x0 - 1, z0, e, x, z);
  }

  /**
   * The rows and columns behind StepMisses: the diagonal rows of a level-e centre and, below
   * level e, its own row are multiples of s, which a patch row (an odd multiple of s / 2) is not;
   * and two centres of level s on one row are s apart.
   */
  lemma CentresApart(s: int, e: int, x0: int, z0: int, x: int, z: int)
    requires 2 <= s <= e && e >= 4 && e % 2 == 0 && e % s == 0 && (s < e ==> (e / 2) % s == 0)
    requires x % e == e / 2 && z % e == e / 2 && x0 % s == s / 2 && z0 % s == s / 2
    requires s == 2 || !(e == s && z == z0 && x == x0)
    ensures z0 != z - e / 2 && z0 != z + e / 2
    ensures z0 != z || x0 + 4 <= x || x + 4 <= x0
  {
    LevelRows(e, s, z);
    if z == z0 {
      if x < x0 {
        SameResidueApart(x, x0, s);
      } else if x0 < x {
        SameResidueApart(x0, x, s);
      }
    }
  }

  /** Cell (a, b) is none of the seven cells centre (x, z) of level e writes, when its row or column keeps it apart. */
  lemma RowApart(n: int, a: int, b: int, e: int, x: int, z: int)
    requires 0 <= a < n && e >= 4 && 0 <= x - e / 2 && x + e / 2 < n
    requires b != z - e / 2 && b != z + e / 2 && (b != z || a < x - 1 || a > x + 1)
    ensures Idx(n, a, b) !in Touched(n, e, x, z)
  {
    var o := e / 2;
    var c := Corners(n, e, x, z);
    assert c == [Idx(n, x - o, z - o), Idx(n, x - o, z + o), Idx(n, x + o, z + o), Idx(n, x + o, z - o)];
    IdxInjective(n, a, b, x + 1, z);
    IdxInjective(n, a, b, x, z);
    IdxInjective(n, a, b, x - 1, z);
    IdxInjective(n, a, b, x - o, z - o);
    IdxInjective(n, a, b, x - o, z + o);
    IdxInjective(n, a, b, x + o, z + o);
    IdxInjective(n, a, b, x + o, z - o);
  }

  /** Along the walk, the cell (x0, z0) of a patch of edge 2 and the cell to its left keep their starting values. */
  lemma {:induction false} PairWalkSmall(g: seq<int>, S: int, h: (int, int) -> real, ub: real, x0: int, z0: int, e: int, z: int, x: int)
    requires WalkPoint(S, e, z, x) && |g| == (S + 1) * (S + 1) && OnPatchGrid(S, 2, x0, z0)
    ensures var r, c, l := Reached(g, S, h, ub, e, z, x), Idx(S + 1, x0, z0), Idx(S + 1, x0 - 1, z0);
      0 <= l < |g| && 0 <= c < |g| && r[c] == g[c] && r[l] == g[l]
    decreases e, z, x, 1
  {
    if x >= e {
      SmallBackStep(g, S, h, ub, x0, z0, e, z, x);
    } else {
      SmallBackRow(g, S, h, ub, x0, z0, e, z, x);
    }
  }

  /** PairWalkSmall at a point just after a centre. */
  lemma {:induction false} SmallBackStep(g: seq<int>, S: int, h: (int, int) -> real, ub: real, x0: int, z0: int, e: int, z: int, x: int)
    requires WalkPoint(S, e, z, x) && |g| == (S + 1) * (S + 1) && OnPatchGrid(S, 2, x0, z0) && x >= e
    ensures var r, c, l := Reached(g, S, h, ub, e, z, x), Idx(S + 1, x0, z0), Idx(S + 1, x0 - 1, z0);
      0 <= l < |g| && 0 <= c < |g| && r[c] == g[c] && r[l] == g[l]
    decreases e, z, x, 0
  {
    WalkBack(S, e, z, x);
    PairWalkSmall(g, S, h, ub, x0, z0, e, z, x - e);
    PairStep(g, S, h, ub, 2, x0, z0, e, z, x - e);
  }

  /** PairWalkSmall at the start of a row or of a level. */
  lemma {:induction false} SmallBackRow(g: seq<int>, S: int, h: (int, int) -> real, ub: real, x0: int, z0: int, e: int, z: int, x: int)
    requires WalkPoint(S, e, z, x) && |g| == (S + 1) * (S + 1) && OnPatchGrid(S, 2, x0, z0) && x < e
    ensures var r, c, l := Reached(g, S, h, ub, e, z, x), Idx(S + 1, x0, z0), Idx(S + 1, x0 - 1, z0);
      0 <= l < |g| && 0 <= c < |g| && r[c] == g[c] && r[l] == g[l]
    decreases e, z, x, 0
  {
    IdxInRange(S + 1, x0 - 1, z0);
    WalkBack(S, e, z, x);
    if z >= e {
      PairWalkSmall(g, S, h, ub, x0, z0, e, z - e, S + e / 2);
    } else if e > 4 {
      PairWalkSmall(g, S, h, ub, x0, z0, e / 2, S + e / 4, e / 4);
    }
  }

  /**
   * Along the walk, the cell (x0, z0) of a patch of edge s >= 4 and the cell to its left agree
   * from the moment centre (x0, z0) of level s has written its error value to both.
   */
  lemma {:induction false} PairWalk(g: seq<int>, S: int, h: (int, int) -> real, ub: real, s: int, x0: int, z0: int, e: int, z: int, x: int)
    requires WalkPoint(S, e, z, x) && |g| == (S + 1) * (S + 1) && OnPatchGrid(S, s, x0, z0) && s >= 4
    requires Passed(s, x0, z0, e, z, x)
    ensures var r, c, l := Reached(g, S, h, ub, e, z, x), Idx(S + 1, x0, z0), Idx(S + 1, x0 - 1, z0);
      0 <= l < |g| && 0 <= c < |g| && r[c] == r[l]
    decreases e, z, x, 1
  {
    if x >= e {
      PairBackStep(g, S, h, ub, s, x0, z0, e, z, x);
    } else if z >= e {
      PairBackRow(g, S, h, ub, s, x0, z0, e, z, x);
    } else {
      PairBackLevel(g, S, h, ub, s, x0, z0, e, z, x);
    }
  }

  /** PairWalk at a point just after a centre: that centre is (x0, z0) of level s, or was passed before it. */
  lemma {:induction false} PairBackStep(g: seq<int>, S: int, h: (int, int) -> real, ub: real, s: int, x0: int, z0: int, e: int, z: int, x: int)
    requires WalkPoint(S, e, z, x) && |g| == (S + 1) * (S + 1) && OnPatchGrid(S, s, x0, z0) && s >= 4
    requires Passed(s, x0, z0, e, z, x) && x >= e
    ensures var r, c, l := Reached(g, S, h, ub, e, z, x), Idx(S + 1, x0, z0), Idx(S + 1, x0 - 1, z0);
      0 <= l < |g| && 0 <= c < |g| && r[c] == r[l]
    decreases e, z, x, 0
  {
    WalkBack(S, e, z, x);
    PairStep(g, S, h, ub, s, x0, z0, e, z, x - e);
    if !(e == s && z == z0 && x - e == x0) {
      OnLevelMod(e, x - e);
      PassedStep(s, x0, z0, e, z, x - e);
      assert s <= e;
      PairWalk(g, S, h, ub, s, x0, z0, e, z, x - e);
    }
  }

  /** PairWalk at the start of a row other than the first: the end of the row before was passed too. */
  lemma {:induction false} PairBackRow(g: seq<int>, S: int, h: (int, int) -> real, ub: real, s: int, x0: int, z0: int, e: int, z: int, x: int)
    requires WalkPoint(S, e, z, x) && |g| == (S + 1) * (S + 1) && OnPatchGrid(S, s, x0, z0) && s >= 4
    requires Passed(s, x0, z0, e, z, x) && x < e && z >= e
    ensures var r, c, l := Reached(g, S, h, ub, e, z, x), Idx(S + 1, x0, z0), Idx(S + 1, x0 - 1, z0);
      0 <= l < |g| && 0 <= c < |g| && r[c] == r[l]
    decreases e, z, x, 0
  {
    WalkBack(S, e, z, x);
    OnLevelMod(e, z - e);
    PassedRow(S, s, x0, z0, e, z, x);
    PairWalk(g, S, h, ub, s, x0, z0, e, z - e, S + e / 2);
  }

  /** PairWalk at the start of a level: the end of the level before was passed too. */
  lemma {:induction false} PairBackLevel(g: seq<int>, S: int, h: (int, int) -> real, ub: real, s: int, x0: int, z0: int, e: int, z: int, x: int)
    requires WalkPoint(S, e, z, x) && |g| == (S + 1) * (S + 1) && OnPatchGrid(S, s, x0, z0) && s >= 4
    requires Passed(s, x0, z0, e, z, x) && x < e && z < e
    ensures var r, c, l := Reached(g, S, h, ub, e, z, x), Idx(S + 1, x0, z0), Idx(S + 1, x0 - 1, z0);
      0 <= l < |g| && 0 <= c < |g| && r[c] == r[l]
    decreases e, z, x, 0
  {
    WalkBack(S, e, z, x);
    PassedLevel(S, s, x0, z0, e, z, x);
    PairWalk(g, S, h, ub, s, x0, z0, e / 2, S + e / 4, e / 4);
  }

  /**
   * One centre's writes: they leave the patch cell and the cell to its left alone unless the
   * centre is (x0, z0) of level s itself, whose writes give both the same value.
   */
  lemma PairStep(g: seq<int>, S: int, h: (int, int) -> real, ub: real, s: int, x0: int, z0: int, e: int, z: int, x: int)
    requires AtCentre(S, e, z, x) && |g| == (S + 1) * (S + 1) && OnPatchGrid(S, s, x0, z0)
    ensures WalkPoint(S, e, z, x + e)
    ensures var q, r := Reached(g, S, h, ub, e, z, x), Reached(g, S, h, ub, e, z, x + e);
      var c, l := Idx(S + 1, x0, z0), Idx(S + 1, x0 - 1, z0);
      0 <= l < |g| && 0 <= c < |g| &&
      ((s == 2 || (s <= e && !(e == s && z == z0 && x == x0))) ==> r[c] == q[c] && r[l] == q[l]) &&
      (e == s && z == z0 && x == x0 ==> r[c] == r[l])
  {
    var n := S + 1;
    IdxInRange(n, x0 - 1, z0);
    IdxInRange(n, x0, z0);
    if e == s && z == z0 && x == x0 {
      StepEvens(g, S, h, ub, e, z, x);
    } else if s == 2 || s <= e {
      StepMisses(S, s, x0, z0, e, z, x);
      StepKeeps(g, S, h, ub, e, z, x, Idx(n, x0, z0));
      StepKeeps(g, S, h, ub, e, z, x, Idx(n, x0 - 1, z0));
    } else {
      NextCentrePoint(S, e, z, x);
    }
  }

  /** A centre's writes leave every cell it does not touch as it was. */
  lemma StepKeeps(g: seq<int>, S: int, h: (int, int) -> real, ub: real, e: int, z: int, x: int, i: int)
    requires AtCentre(S, e, z, x) && |g| == (S + 1) * (S + 1)
    requires 0 <= i < |g| && i !in Touched(S + 1, e, x, z)
    ensures WalkPoint(S, e, z, x + e)
    ensures Reached(g, S, h, ub, e, z, x + e)[i] == Reached(g, S, h, ub, e, z, x)[i]
  {
    var n := S + 1;
    WalkNextCentre(g, S, h, ub, e, z, x);
    var q := Reached(g, S, h, ub, e, z, x);
    var v, p := ErrorValue(q, n, h, ub, e, x, z), HeightProxy(h, e, x, z);
    StoresFrameAt(q, n, e, x, z, v, p, i);
  }

  lemma StoresFrameAt(q: seq<int>, n: int, e: int, x: int, z: int, v: int, p: int, i: int)
    requires |q| == n * n && CentreOk(n, e, x, z) && 0 <= i < |q| && i !in Touched(n, e, x, z)
    ensures Stores(q, n, e, x, z, v, p, 7)[i] == q[i]
  {
    StoresFrame(q, n, e, x, z, v, p);
  }

  /** A centre's writes leave its own cell and the cell to its left with the same value. */
  lemma StepEvens(g: seq<int>, S: int, h: (int, int) -> real, ub: real, e: int, z: int, x: int)
    requires AtCentre(S, e, z, x) && |g| == (S + 1) * (S + 1)
    ensures WalkPoint(S, e, z, x + e) && CentreOk(S + 1, e, x, z)
    ensures 0 <= Idx(S + 1, x - 1, z) < |g| && 0 <= Idx(S + 1, x, z) < |g|
    ensures Reached(g, S, h, ub, e, z, x + e)[Idx(S + 1, x, z)] == Reached(g, S, h, ub, e, z, x + e)[Idx(S + 1, x - 1, z)]
  {
    var n := S + 1;
    WalkNextCentre(g, S, h, ub, e, z, x);
    var q := Reached(g, S, h, ub, e, z, x);
    StoresEffect(q, n, e, x, z, ErrorValue(q, n, h, ub, e, x, z), HeightProxy(h, e, x, z));
    IdxInRange(n, x - 1, z);
  }

  /** Stepping back over a centre other than (x0, z0) of level s keeps that centre passed. */
  lemma PassedStep(s: int, x0: int, z0: int, e: int, z: int, x: int)
    requires s > 0 && x0 % s == s / 2 && (e == s ==> x % s == s / 2)
    ensures Passed(s, x0, z0, e, z, x + e) && !(e == s && z == z0 && x == x0) ==> Passed(s, x0, z0, e, z, x)
  {
    if e == s && z == z0 && x < x0 < x + e {
      SameResidueApart(x, x0, s);
    }
  }

  /** Stepping back from the start of row z to the end of row z - e keeps centre (x0, z0) of level s passed. */
  lemma PassedRow(S: int, s: int, x0: int, z0: int, e: int, z: int, x: int)
    requires OnPatchGrid(S, s, x0, z0) && x == e / 2 && (e == s ==> (z - e) % s == s / 2)
    ensures Passed(s, x0, z0, e, z, x) ==> Passed(s, x0, z0, e, z - e, S + e / 2)
  {
    if e == s && z - e < z0 < z {
      SameResidueApart(z - e, z0, s);
    }
  }

  /**
   * At the first centre of a level, centre (x0, z0) of level s is passed only when s is a lower
   * level, and then it is passed at the end of the level before too.
   */
  lemma PassedLevel(S: int, s: int, x0: int, z0: int, e: int, z: int, x: int)
    requires OnPatchGrid(S, s, x0, z0) && IsPow2(e) && e >= 4 && x == e / 2 && z == e / 2
    ensures Passed(s, x0, z0, e, z, x) ==> e > s && Passed(s, x0, z0, e / 2, S + e / 4, e / 4)
  {
    ResidueAtMost(x0, s);
    ResidueAtMost(z0, s);
    if s < e < 2 * s {
      Pow2Between(s, e);
    }
  }

  /** The remainder of a non-negative number is at most the number. */
  lemma ResidueAtMost(a: int, s: int)
    requires a >= 0 && s > 0
    ensures a % s <= a
  {
    MulLe(0, a / s, s);
  }

  /**
   * After the propagation the cell of every patch and the cell to its left hold the same value:
   * for an edge s of at least 4, level s writes its error value to both and no centre after it
   * writes either; for edge 2 neither is ever written, so they keep the (equal) values they
   * started with.
   */
  lemma RoughenedPair(g: seq<int>, S: int, h: (int, int) -> real, ub: real, s: int, x0: int, z0: int)
    requires |g| == (S + 1) * (S + 1) && OnPatchGrid(S, s, x0, z0)
    requires s == 2 ==> g[Idx(S + 1, x0, z0)] == g[Idx(S + 1, x0 - 1, z0)]
    ensures 0 <= Idx(S + 1, x0 - 1, z0) < |g|
    ensures Roughened(g, S, h, ub)[Idx(S + 1, x0, z0)] == Roughened(g, S, h, ub)[Idx(S + 1, x0 - 1, z0)]
  {
    if s == 2 {
      PairWalkSmall(g, S, h, ub, x0, z0, 2 * S, S, S);
    } else {
      PairWalk(g, S, h, ub, s, x0, z0, 2 * S, S, S);
    }
  }
}
