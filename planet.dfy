/**
 * The terrain and its patches. Terrain owns the error grid (quadMatrix), updated in place by
 * PropagateRoughness and RefineNode, and the patch quadtree (face), held as a QuadTree.Node
 * value that RefineNode reshapes. A Patch is the drawable object of one tree position: its
 * flags, its neighbour state and its mesh, which Generate rebuilds from the grid.
 *
 * The plane of the terrain has left = (1, 0, 0) and forward = (0, 0, 1); a patch is identified by
 * its integer centre (cx, cz) and its edge `scale`.
 */
module Planet {
  import opened ErrorGrid
  import opened PatchMesh
  import opened QuadTree

  lemma AppendThree<T>(a: seq<T>, b: seq<T>, c: seq<T>)
    ensures a + b + c == a + (b + c)
  {
  }

  lemma AppendFive<T>(a: seq<T>, b: seq<T>, c: seq<T>, d: seq<T>, e: seq<T>)
    ensures a + b + c + d + e == a + (b + c + d + e)
  {
  }

  class Terrain {
    /** The terrain edge (a power of two, at least 2) and the side of the grid, scale + 1. */
    const scale: int
    const quadSize: int
    /** The error grid: cell (x, z) at index z * quadSize + x. */
    const quadMatrix: array<int>
    /** GetHeightAt at integer grid coordinates. */
    const height: (int, int) -> real
    /** upperBound of PropagateRoughness. */
    const upperBound: real
    /** The patch quadtree, rooted at the patch covering the whole terrain. */
    var face: Node

    /** The grid has quadSize * quadSize cells. */
    ghost predicate Valid()
      reads this
    {
      IsPow2(scale) && scale >= 2 && quadSize == scale + 1 &&
      quadMatrix.Length == quadSize * quadSize
    }

    /**
     * A terrain of the given scale: a grid of (scale + 1)^2 cells all set to 1, a single root patch
     * centred on the origin, then PropagateRoughness over that grid.
     */
    constructor(scale: int, height: (int, int) -> real, upperBound: real)
      requires IsPow2(scale) && scale >= 2
      ensures Valid() && fresh(quadMatrix)
      ensures this.scale == scale && this.height == height && this.upperBound == upperBound
      ensures face == Node(0, 0, scale, true, false, []) && WF(face, scale)
      ensures quadMatrix[..] == Roughened(seq((scale + 1) * (scale + 1), _ => 1), scale, height, upperBound)
    {
      this.scale := scale;
      this.height := height;
      this.upperBound := upperBound;
      quadSize := scale + 1;
      var n := scale + 1;
      var m := new int[n * n];
      for x := 0 to n
        invariant forall i | 0 <= i < n * n && i % n < x :: m[i] == 1
      {
        for z := 0 to n
          invariant forall i | 0 <= i < n * n && i % n < x :: m[i] == 1
          invariant forall z' | 0 <= z' < z :: m[Idx(n, x, z')] == 1
        {
          IdxInRange(n, x, z);
          m[z * n + x] := 1;
        }
        forall i | 0 <= i < n * n && i % n == x ensures m[i] == 1 {
          IdxSplit(n, i);
        }
      }
      forall i | 0 <= i < n * n ensures m[i] == 1 {
        IdxSplit(n, i);
      }
      assert m[..] == seq(n * n, _ => 1);
      quadMatrix := m;
      face := Node(0, 0, scale, true, false, []);
      new;
      PropagateRoughness();
    }

    /** The value of cell (x, z). */
    function GetQuadMatrixData(x: int, z: int): (v: int)
      reads this, quadMatrix
      requires Valid() && 0 <= x < quadSize && 0 <= z < quadSize
      ensures v == quadMatrix[..][Idx(quadSize, x, z)]
    {
      IdxInRange(quadSize, x, z);
      quadMatrix[z * quadSize + x]
    }

    /**
     * The grid column and row of a patch: its centre shifted by half the grid side. Half the
     * patch's edge fits on both sides of the cell.
     */
    function GetQuadX(patch: Key): (x: int)
      reads this
      requires Valid() && Sits(scale, patch.cx, patch.cz, patch.scale)
      ensures x == Quad(scale, patch.cx) && 1 <= patch.scale / 2 <= x <= quadSize - 1 - patch.scale / 2
    {
      patch.cx + quadSize / 2
    }

    function GetQuadZ(patch: Key): (z: int)
      reads this
      requires Valid() && Sits(scale, patch.cx, patch.cz, patch.scale)
      ensures z == Quad(scale, patch.cz) && 1 <= patch.scale / 2 <= z <= quadSize - 1 - patch.scale / 2
    {
      patch.cz + quadSize / 2
    }

    /**
     * The whole roughness propagation: the grid ends as Roughened of the grid it started from,
     * every level from 4 up to the scale walked row by row, centre by centre.
     */
    method PropagateRoughness()
      requires Valid()
      modifies quadMatrix
      ensures quadMatrix[..] == Roughened(old(quadMatrix[..]), scale, height, upperBound)
    {
      ghost var g0 := quadMatrix[..];
      var edgeLen := 4;
      while edgeLen <= scale
        invariant IsPow2(edgeLen) && 4 <= edgeLen <= 2 * scale && WalkPoint(scale, edgeLen, edgeLen / 2, edgeLen / 2)
        invariant quadMatrix[..] == Reached(g0, scale, height, upperBound, edgeLen, edgeLen / 2, edgeLen / 2)
        decreases scale - edgeLen
      {
        RoughenLevel(edgeLen, g0);
        WalkNextLevel(g0, scale, height, upperBound, edgeLen);
        edgeLen := edgeLen * 2;
      }
      Pow2Between(scale, edgeLen);
    }

    /**
     * One pass of PropagateRoughness's outer loop: level e walked row by row, which takes the walk started on g0 from the first centre of the level to past its last row.
     */
    method RoughenLevel(edgeLen: int, ghost g0: seq<int>)
      requires Valid() && IsPow2(edgeLen) && 4 <= edgeLen <= scale && WalkPoint(scale, edgeLen, edgeLen / 2, edgeLen / 2)
      requires |g0| == quadMatrix.Length && quadMatrix[..] == Reached(g0, scale, height, upperBound, edgeLen, edgeLen / 2, edgeLen / 2)
      modifies quadMatrix
      ensures WalkPoint(scale, edgeLen, scale + edgeLen / 2, edgeLen / 2)
      ensures quadMatrix[..] == Reached(g0, scale, height, upperBound, edgeLen, scale + edgeLen / 2, edgeLen / 2)
    {
      var edgeOffset := edgeLen / 2;
      var z := edgeOffset;
      while z < scale
        invariant WalkPoint(scale, edgeLen, z, edgeOffset)
        invariant quadMatrix[..] == Reached(g0, scale, height, upperBound, edgeLen, z, edgeOffset)
        decreases scale - z
      {
        RoughenRow(edgeLen, z, g0);
        WalkNextRow(g0, scale, height, upperBound, edgeLen, z);
        z := z + edgeLen;
      }
      LevelEnd(scale, edgeLen, z);
    }

    /**
     * One pass of PropagateRoughness's middle loop: row z of level e walked centre by centre, which
     * takes the walk started on g0 from the first centre of the row to past its last one.
     */
    method RoughenRow(edgeLen: int, z: int, ghost g0: seq<int>)
      requires Valid() && edgeLen <= scale && z < scale && WalkPoint(scale, edgeLen, z, edgeLen / 2)
      requires |g0| == quadMatrix.Length && quadMatrix[..] == Reached(g0, scale, height, upperBound, edgeLen, z, edgeLen / 2)
      modifies quadMatrix
      ensures WalkPoint(scale, edgeLen, z, scale + edgeLen / 2)
      ensures quadMatrix[..] == Reached(g0, scale, height, upperBound, edgeLen, z, scale + edgeLen / 2)
    {
      var x := edgeLen / 2;
      while x < scale
        invariant WalkPoint(scale, edgeLen, z, x)
        invariant quadMatrix[..] == Reached(g0, scale, height, upperBound, edgeLen, z, x)
        decreases scale - x
      {
        RoughnessStep(edgeLen, x, z, g0);
        x := x + edgeLen;
      }
      LevelEnd(scale, edgeLen, x);
    }

    /**
     * One pass of PropagateRoughness's inner loop: centre (x, z) of level e gets its seven writes,
     * which takes the walk started on g0 to the next centre of row z.
     */
    method RoughnessStep(e: int, x: int, z: int, ghost g0: seq<int>)
      requires Valid() && AtCentre(scale, e, z, x)
      requires |g0| == quadMatrix.Length && quadMatrix[..] == Reached(g0, scale, height, upperBound, e, z, x)
      modifies quadMatrix
      ensures WalkPoint(scale, e, z, x + e)
      ensures quadMatrix[..] == Reached(g0, scale, height, upperBound, e, z, x + e)
    {
      WalkNextCentre(g0, scale, height, upperBound, e, z, x);
      var d2IntValue, proxy := CentreValues(e, x, z);
      CentreStores(e, x, z, d2IntValue, proxy);
    }

    /** The seven writes of centre (x, z) of level e, of error value d2IntValue and height proxy proxy. */
    method CentreStores(e: int, x: int, z: int, d2IntValue: int, proxy: int)
      requires Valid() && CentreOk(quadSize, e, x, z)
      modifies quadMatrix
      ensures quadMatrix[..] == Stores(old(quadMatrix[..]), quadSize, e, x, z, d2IntValue, proxy, 7)
    {
      var n := quadSize;
      CentreCells(n, e, x, z);
      var c := Corners(n, e, x, z);
      ghost var q := quadMatrix[..];
      quadMatrix[Idx(n, x + 1, z)] := proxy;
      assert quadMatrix[..] == Stores(q, n, e, x, z, d2IntValue, proxy, 1);
      quadMatrix[Idx(n, x, z)] := d2IntValue;
      assert quadMatrix[..] == Stores(q, n, e, x, z, d2IntValue, proxy, 2);
      quadMatrix[Idx(n, x - 1, z)] := d2IntValue;
      assert quadMatrix[..] == Stores(q, n, e, x, z, d2IntValue, proxy, 3);
      quadMatrix[c[0]] := Max(quadMatrix[c[0]], d2IntValue);
      assert quadMatrix[..] == Stores(q, n, e, x, z, d2IntValue, proxy, 4);
      quadMatrix[c[1]] := Max(quadMatrix[c[1]], d2IntValue);
      assert quadMatrix[..] == Stores(q, n, e, x, z, d2IntValue, proxy, 5);
      quadMatrix[c[2]] := Max(quadMatrix[c[2]], d2IntValue);
      assert quadMatrix[..] == Stores(q, n, e, x, z, d2IntValue, proxy, 6);
      quadMatrix[c[3]] := Max(quadMatrix[c[3]], d2IntValue);
    }

    /**
     * What PropagateRoughness computes for centre (x, z) of level e before it writes: the six
     * deviations folded into d2, the error value d2IntValue (at least 1 and, above level 4, raised
     * to the bounded value of the centre cell and its four neighbours), and the height proxy.
     */
    method CentreValues(e: int, x: int, z: int) returns (d2IntValue: int, proxy: int)
      requires Valid() && CentreOk(quadSize, e, x, z)
      ensures d2IntValue == ErrorValue(quadMatrix[..], scale + 1, height, upperBound, e, x, z)
      ensures proxy == HeightProxy(height, e, x, z)
    {
      var d2 := Roughness(e, x, z);
      d2IntValue := CeilToInt(d2 * 255.0 * 4.0 / e as real);
      d2IntValue := Max(1, d2IntValue);
      if e == 4 {
        proxy := FinestProxy(e, x, z);
      } else {
        d2IntValue := FloorByNeighbours(e, x, z, d2IntValue);
        proxy := CoarseProxy(e, x, z);
      }
    }

    /**
     * Above level 4 the error value v is raised, in turn, to the bounded value of the centre cell
     * and of its neighbours at -x, +x, -z and +z, half an edge away.
     */
    method FloorByNeighbours(e: int, x: int, z: int, v: int) returns (d2IntValue: int)
      requires Valid() && CentreOk(quadSize, e, x, z)
      ensures d2IntValue == FloorBy(quadMatrix[..], upperBound, Around(quadSize, e, x, z), v)
    {
      var edgeOffset := e / 2;
      ghost var q := quadMatrix[..];
      ghost var a := Around(quadSize, e, x, z);
      AroundInside(quadSize, e, x, z);
      d2IntValue := Max(Bounded(upperBound, GetQuadMatrixData(x, z)), v);
      assert d2IntValue == FloorBy(q, upperBound, a[..1], v);
      d2IntValue := Max(Bounded(upperBound, GetQuadMatrixData(x - edgeOffset, z)), d2IntValue);
      assert a[..2][..1] == a[..1];
      assert d2IntValue == FloorBy(q, upperBound, a[..2], v);
      d2IntValue := Max(Bounded(upperBound, GetQuadMatrixData(x + edgeOffset, z)), d2IntValue);
      assert a[..3][..2] == a[..2];
      assert d2IntValue == FloorBy(q, upperBound, a[..3], v);
      d2IntValue := Max(Bounded(upperBound, GetQuadMatrixData(x, z - edgeOffset)), d2IntValue);
      assert a[..4][..3] == a[..3];
      assert d2IntValue == FloorBy(q, upperBound, a[..4], v);
      d2IntValue := Max(Bounded(upperBound, GetQuadMatrixData(x, z + edgeOffset)), d2IntValue);
      assert a[..5][..4] == a[..4] && a[..5] == a;
    }

    /** d2: the largest of the six deviations around centre (x, z) of level e. */
    method Roughness(e: int, x: int, z: int) returns (d2: real)
      ensures d2 == MaxDeviation(height, Spans(e, x, z))
    {
      var h := height;
      var s := Spans(e, x, z);
      d2 := Deviation(h, s[0]);
      assert d2 == MaxDeviation(h, s[..1]);
      d2 := MaxR(Deviation(h, s[1]), d2);
      assert s[..2][..1] == s[..1];
      assert d2 == MaxDeviation(h, s[..2]);
      d2 := MaxR(Deviation(h, s[2]), d2);
      assert s[..3][..2] == s[..2];
      assert d2 == MaxDeviation(h, s[..3]);
      d2 := MaxR(Deviation(h, s[3]), d2);
      assert s[..4][..3] == s[..3];
      assert d2 == MaxDeviation(h, s[..4]);
      d2 := MaxR(Deviation(h, s[4]), d2);
      assert s[..5][..4] == s[..4];
      assert d2 == MaxDeviation(h, s[..5]);
      d2 := MaxR(Deviation(h, s[5]), d2);
      assert s[..6][..5] == s[..5] && s[..6] == s;
    }

    /** The height proxy of a level-4 centre: the highest of the nine points of its 3x3 neighbourhood. */
    method FinestProxy(e: int, x: int, z: int) returns (proxy: int)
      requires e == 4
      ensures proxy == HeightProxy(height, e, x, z)
    {
      var h := height;
      var p := Samples(e, x, z);
      var maxHeight := h(p[0].x, p[0].z);
      assert maxHeight == MaxHeight(h, p[..1]);
      maxHeight := MaxR(h(p[1].x, p[1].z), maxHeight);
      assert p[..2][..1] == p[..1];
      assert maxHeight == MaxHeight(h, p[..2]);
      maxHeight := MaxR(h(p[2].x, p[2].z), maxHeight);
      assert p[..3][..2] == p[..2];
      assert maxHeight == MaxHeight(h, p[..3]);
      maxHeight := MaxR(h(p[3].x, p[3].z), maxHeight);
      assert p[..4][..3] == p[..3];
      assert maxHeight == MaxHeight(h, p[..4]);
      maxHeight := MaxR(h(p[4].x, p[4].z), maxHeight);
      assert p[..5][..4] == p[..4];
      assert maxHeight == MaxHeight(h, p[..5]);
      maxHeight := MaxR(h(p[5].x, p[5].z), maxHeight);
      assert p[..6][..5] == p[..5];
      assert maxHeight == MaxHeight(h, p[..6]);
      maxHeight := MaxR(h(p[6].x, p[6].z), maxHeight);
      assert p[..7][..6] == p[..6];
      assert maxHeight == MaxHeight(h, p[..7]);
      maxHeight := MaxR(h(p[7].x, p[7].z), maxHeight);
      assert p[..8][..7] == p[..7];
      assert maxHeight == MaxHeight(h, p[..8]);
      maxHeight := MaxR(h(p[8].x, p[8].z), maxHeight);
      assert p[..9][..8] == p[..8] && p[..9] == p;
      proxy := CeilToInt(maxHeight * 255.0);
    }

    /** The height proxy of a centre above level 4: the highest of the four points at quarter offsets. */
    method CoarseProxy(e: int, x: int, z: int) returns (proxy: int)
      requires e != 4
      ensures proxy == HeightProxy(height, e, x, z)
    {
      var h := height;
      var p := Samples(e, x, z);
      var maxHeight := h(p[0].x, p[0].z);
      assert maxHeight == MaxHeight(h, p[..1]);
      maxHeight := MaxR(h(p[1].x, p[1].z), maxHeight);
      assert p[..2][..1] == p[..1];
      assert maxHeight == MaxHeight(h, p[..2]);
      maxHeight := MaxR(h(p[2].x, p[2].z), maxHeight);
      assert p[..3][..2] == p[..2];
      assert maxHeight == MaxHeight(h, p[..3]);
      maxHeight := MaxR(h(p[3].x, p[3].z), maxHeight);
      assert p[..4][..3] == p[..3] && p[..4] == p;
      proxy := CeilToInt(maxHeight * 255.0);
    }
    // -------------------------------------------------------------------------------------
    // The per-frame refinement
    // -------------------------------------------------------------------------------------

    /** DisableRenderer: the renderer of the patch and, child by child, of every descendant goes off. */
    method DisableRenderer(patch: Node) returns (r: Node)
      ensures r == Darken(patch)
      decreases patch
    {
      var kids: seq<Node> := [];
      for i := 0 to |patch.kids|
        invariant |kids| == i && forall j | 0 <= j < i :: kids[j] == Darken(patch.kids[j])
      {
        var kid := DisableRenderer(patch.kids[i]);
        kids := kids + [kid];
      }
      r := patch.(rendered := false, kids := kids);
      assert r.kids == Darken(patch).kids;
    }

    /**
     * RefineNode on one patch: the patch's cell, then its children's, as Refine describes, with the
     * patches made active appended to `active`.
     */
    method RefineNode(patch: Node, visible: Visible, fine: Fine, active: seq<Key>) returns (r: Node, active': seq<Key>)
      requires Valid() && WF(patch, scale)
      modifies quadMatrix
      ensures var f := Refine(patch, old(quadMatrix[..]), scale, visible, fine);
        r == f.tree && quadMatrix[..] == f.grid && active' == active + f.active
      decreases patch.scale, 2
    {
      ghost var g := quadMatrix[..];
      CellInside(patch, scale);
      var x := GetQuadX(KeyOf(patch));
      var z := GetQuadZ(KeyOf(patch));
      var c := z * quadSize + x;
      assert c == CellOf(scale, patch);
      if !visible(patch.cx, patch.cz, patch.scale) {
        quadMatrix[c] := 0;
        r := DisableRenderer(patch);
        active' := active;
        return;
      }
      var v1 := GetQuadMatrixData(x + 1, z);
      var v2 := GetQuadMatrixData(x - 1, z);
      var blend := if fine(patch.cx, patch.cz, patch.scale, v1, v2) then 0 else 255;
      assert blend == Blend(g, scale, patch, fine);
      quadMatrix[c] := blend;
      if blend == 0 {
        r, active' := CollapseNode(patch, active);
      } else {
        r, active' := DescendNode(patch, visible, fine, active);
      }
    }

    /**
     * The blend-0 path of RefineNode, after the patch's cell is written: the patch joins the active
     * list and, if it has children, their cells and then its own are restored and it is merged.
     */
    method CollapseNode(patch: Node, active: seq<Key>) returns (r: Node, active': seq<Key>)
      requires Valid() && WF(patch, scale)
      modifies quadMatrix
      ensures var f := Collapse(patch, old(quadMatrix[..]), scale);
        r == f.tree && quadMatrix[..] == f.grid && active' == active + f.active
    {
      active' := active + [KeyOf(patch)];
      r := patch;
      if patch.kids != [] {
        RestoreCells(patch);
        CellInside(patch, scale);
        var x := GetQuadX(KeyOf(patch));
        var z := GetQuadZ(KeyOf(patch));
        assert z * quadSize + x == CellOf(scale, patch);
        quadMatrix[z * quadSize + x] := quadMatrix[z * quadSize + x - 1];
        var retired;
        r, retired := Merge(patch);
      }
    }

    /**
     * The blend-255 path of RefineNode, after the patch's cell is written: a leaf of edge at least
     * 4 is subdivided, then the children, if any, are refined in order.
     */
    method DescendNode(patch: Node, visible: Visible, fine: Fine, active: seq<Key>) returns (r: Node, active': seq<Key>)
      requires Valid() && WF(patch, scale)
      modifies quadMatrix
      ensures var f := Descend(patch, old(quadMatrix[..]), scale, visible, fine);
        r == f.tree && quadMatrix[..] == f.grid && active' == active + f.active
      decreases patch.scale, 1
    {
      r := patch;
      if patch.scale >= 4 {
        if patch.kids == [] {
          SubdivideWF(patch, scale);
          r := Subdivide(patch);
        }
      }
      active' := active;
      if r.kids != [] {
        r, active' := RefineChildren(r, visible, fine, active);
      }
    }

    /** The cells of the patch's children, in order, each overwritten with the cell to its left. */
    method RestoreCells(patch: Node)
      requires Valid() && WF(patch, scale)
      modifies quadMatrix
      ensures quadMatrix[..] == RestoreKids(old(quadMatrix[..]), scale, patch.kids, |patch.kids|)
    {
      ghost var g := quadMatrix[..];
      assert GridOk(g, scale);
      KidsWF(patch, scale);
      for i := 0 to |patch.kids|
        invariant quadMatrix[..] == RestoreKids(g, scale, patch.kids, i)
      {
        RestoreKidsNext(g, scale, patch.kids, i);
        RestoreCell(patch.kids[i]);
      }
    }

    /** One step of the loop: the child's cell takes the value of the cell to its left. */
    method RestoreCell(kid: Node)
      requires Valid() && WF(kid, scale)
      modifies quadMatrix
      ensures (CellInside(kid, scale); var c := CellOf(scale, kid); quadMatrix[..] == old(quadMatrix[..])[c := old(quadMatrix[..])[c - 1]])
    {
      CellInside(kid, scale);
      var childX := GetQuadX(KeyOf(kid));
      var childZ := GetQuadZ(KeyOf(kid));
      FlatIndex(quadSize, childX, childZ, CellOf(scale, kid));
      quadMatrix[childZ * quadSize + childX] := quadMatrix[childZ * quadSize + childX - 1];
    }

    /** The recursion of RefineNode into the patch's children, in order. */
    method RefineChildren(patch: Node, visible: Visible, fine: Fine, active: seq<Key>) returns (r: Node, active': seq<Key>)
      requires Valid() && WF(patch, scale)
      modifies quadMatrix
      ensures var rk := RefineKids(patch.kids, old(quadMatrix[..]), scale, visible, fine, patch.scale, |patch.kids|);
        r == patch.(kids := rk.kids) && quadMatrix[..] == rk.grid && active' == active + rk.active
      decreases patch.scale, 0
    {
      ghost var g := quadMatrix[..];
      var kids: seq<Node> := [];
      active' := active;
      for i := 0 to |patch.kids|
        invariant var rk := RefineKids(patch.kids, g, scale, visible, fine, patch.scale, i);
          kids == rk.kids && quadMatrix[..] == rk.grid && active' == active + rk.active
      {
        ghost var rk := RefineKids(patch.kids, g, scale, visible, fine, patch.scale, i);
        var kid, a := RefineNode(patch.kids[i], visible, fine, active');
        AppendThree(active, rk.active, Refine(patch.kids[i], rk.grid, scale, visible, fine).active);
        kids := kids + [kid];
        active' := a;
      }
      r := patch.(kids := kids);
    }

    /**
     * FinalizeFace: a patch already finalized is left alone; otherwise it is texturized and marked
     * finalized.
     */
    method FinalizeFace(face: Patch)
      requires face.Coherent()
      modifies face`finalized, face`textured
      ensures face.finalized && face.textured && face.Coherent()
      ensures old(face.finalized) ==> unchanged(face)
    {
      if face.finalized {
        return;
      }
      face.Texturize();
      face.finalized := true;
    }

    /**
     * p is the patch object drawn for tree position k; it and its parent are among patches, and
     * the parent, if any, is the patch of another square that contains k's.
     */
    ghost predicate Draws(p: Patch, k: Key, patches: set<Patch>)
    {
      p in patches && p.terrain == this && p.Id() == k && p.parent != p &&
      (p.parent != null ==> p.parent in patches && p.parent.Id() != k && Within(p.parent.Id(), k))
    }

    /**
     * One frame. Without a camera nothing happens. Otherwise the tree is refined from the root,
     * which gives the grid, the tree and the active patches of Refine, and then every active patch
     * is generated and finalized: each ends with the mask the final grid gives it, the mesh of that
     * mask, finalized and texturized. draw gives the patch object of each tree position.
     */
    method Update(camera: bool, visible: Visible, fine: Fine, draw: Key -> Patch, ghost patches: set<Patch>)
      returns (activeTree: seq<Key>)
      requires Valid() && WF(face, scale)
      requires forall k: Key | Sits(scale, k.cx, k.cz, k.scale) :: Draws(draw(k), k, patches)
      requires forall p | p in patches :: p.Coherent()
      modifies quadMatrix, this`face, patches
      ensures WF(face, scale) && forall p | p in patches :: p.Coherent()
      ensures !camera ==> activeTree == [] && face == old(face) && quadMatrix[..] == old(quadMatrix[..])
      ensures !camera ==> forall p | p in patches :: unchanged(p)
      ensures camera ==> var f := Refine(old(face), old(quadMatrix[..]), scale, visible, fine);
        face == f.tree && quadMatrix[..] == f.grid && activeTree == f.active
      ensures forall k | k in activeTree :: draw(k).Drawn()
      ensures camera ==> forall p | p in patches && (forall k | k in activeTree :: p != draw(k) && p != draw(k).parent) :: unchanged(p)
      ensures camera ==> forall k | k in activeTree && draw(k) in patches && draw(k).parent != null && !(old(draw(k).generated) && old(draw(k).neighborState) == draw(k).neighborState) ::
        !draw(k).parent.rendererEnabled && !draw(k).parent.generated
      ensures forall j | 0 <= j < quadMatrix.Length && j % 2 == 1 :: quadMatrix[j] == old(quadMatrix[j])
    {
      activeTree := [];
      if !camera {
        return;
      }
      activeTree := RefineFace(visible, fine);
      assert forall p | p in patches :: unchanged(p);
      ActiveNotParents(face, activeTree, draw, patches);
      DrawActive(activeTree, draw, patches);
    }

    /**
     * The refinement half of Update: RefineNode from the root with an empty active list. The tree,
     * the grid and the list are those of Refine; the list holds distinct leaves of the new tree,
     * and no odd-indexed cell changes.
     */
    method RefineFace(visible: Visible, fine: Fine) returns (activeTree: seq<Key>)
      requires Valid() && WF(face, scale)
      modifies quadMatrix, this`face
      ensures var f := Refine(old(face), old(quadMatrix[..]), scale, visible, fine);
        face == f.tree && quadMatrix[..] == f.grid && activeTree == f.active
      ensures WF(face, scale) && NoDup(activeTree)
      ensures forall k | k in activeTree :: HasLeaf(face, k) && Sits(scale, k.cx, k.cz, k.scale)
      ensures forall j | 0 <= j < quadMatrix.Length && j % 2 == 1 :: quadMatrix[j] == old(quadMatrix[j])
    {
      ghost var g := quadMatrix[..];
      RefineLeaves(face, g, scale, visible, fine);
      var tree, a := RefineNode(face, visible, fine, []);
      forall j | 0 <= j < quadMatrix.Length && j % 2 == 1
        ensures quadMatrix[j] == g[j]
      {
        RefineOdd(old(face), g, scale, visible, fine, j);
      }
      face := tree;
      activeTree := a;
    }

    /** Active patches are leaves of one tree, so none of their objects is the parent of another's. */
    lemma ActiveNotParents(tree: Node, activeTree: seq<Key>, draw: Key -> Patch, patches: set<Patch>)
      requires WF(tree, scale) && forall k | k in activeTree :: HasLeaf(tree, k) && Draws(draw(k), k, patches)
      ensures forall k, k' | k in activeTree && k' in activeTree :: draw(k').parent != draw(k)
    {
      forall k, k' | k in activeTree && k' in activeTree
        ensures draw(k').parent != draw(k)
      {
        if draw(k').parent == draw(k) {
          LeavesNest(tree, scale, k, k');
        }
      }
    }

    /** The patch objects of the active positions and their parents: what drawing them may change. */
    ghost function Drawing(activeTree: seq<Key>, draw: Key -> Patch): set<object>
    {
      (set k | k in activeTree :: draw(k) as object) + (set k | k in activeTree && draw(k).parent != null :: draw(k).parent as object)
    }

    /** p is the patch object of position k, among patches and placed in this terrain. */
    ghost predicate Ready(p: Patch, k: Key, patches: set<Patch>)
    {
      p in patches && p.terrain == this && p.Id() == k && p.Placed() && p.parent != p &&
      (p.parent != null ==> p.parent in patches)
    }

    /** The loop of Update over the active patches: each is generated, then finalized, in order. */
    method DrawActive(activeTree: seq<Key>, draw: Key -> Patch, ghost patches: set<Patch>)
      requires Valid()
      requires forall k | k in activeTree :: Ready(draw(k), k, patches)
      requires NoDup(activeTree)
      requires forall k, k' | k in activeTree && k' in activeTree :: draw(k').parent != draw(k)
      requires forall p | p in patches :: p.Coherent()
      modifies Drawing(activeTree, draw)
      ensures forall p | p in patches :: p.Coherent()
      ensures forall k | k in activeTree :: draw(k).Drawn()
      ensures forall p | p in patches && (forall k | k in activeTree :: p != draw(k) && p != draw(k).parent) :: unchanged(p)
      ensures forall k | k in activeTree && draw(k) in patches && draw(k).parent != null && !(old(draw(k).generated) && old(draw(k).neighborState) == draw(k).neighborState) ::
        !draw(k).parent.rendererEnabled && !draw(k).parent.generated
    {
      ghost var drawn: set<Patch> := {};
      for i := 0 to |activeTree|
        invariant forall p | p in patches :: p.Coherent()
        invariant drawn <= patches
        invariant forall q | q in drawn :: q.Drawn() && forall k | k in activeTree :: draw(k).parent != q && q.parent != draw(k)
        invariant forall j | 0 <= j < i :: draw(activeTree[j]) in drawn
        invariant forall j | i <= j < |activeTree| ::
            draw(activeTree[j]) !in drawn && draw(activeTree[j]).generated == old(draw(activeTree[j]).generated) && draw(activeTree[j]).neighborState == old(draw(activeTree[j]).neighborState)
        invariant forall q | q in drawn && q.parent != null && !(old(q.generated) && old(q.neighborState) == q.neighborState) ::
          !q.parent.rendererEnabled && !q.parent.generated
      {
        var p := draw(activeTree[i]);
        assert activeTree[i] in activeTree;
        forall j | i < j < |activeTree|
          ensures draw(activeTree[j]) != p
        {
          assert draw(activeTree[j]).Id() == activeTree[j] != activeTree[i];
        }
        ghost var next := drawn + {p};
        assert forall j | 0 <= j <= i :: draw(activeTree[j]) in next;
        assert forall j | i < j < |activeTree| :: draw(activeTree[j]) !in next;
        DrawPatch(p, patches, drawn);
        drawn := next;
      }
    }

    /**
     * One step of the loop of Update: the patch is generated and finalized, which leaves it drawn,
     * keeps every patch coherent and every patch drawn before still drawn.
     */
    method DrawPatch(p: Patch, ghost patches: set<Patch>, ghost drawn: set<Patch>)
      requires Valid() && p.terrain == this && p.Placed() && p.parent != p
      requires forall r | r in patches :: r.Coherent()
      requires p in patches && p.parent !in drawn && forall q | q in drawn :: q.Drawn() && q.parent != p
      modifies p, {p.parent}`rendererEnabled, {p.parent}`generated
      ensures p.Drawn()
      ensures forall r | r in patches :: r.Coherent()
      ensures forall q | q in drawn :: q.Drawn() && q.neighborState == old(q.neighborState)
      ensures forall q | q in drawn && q.parent != null && !old(q.parent.rendererEnabled) && !old(q.parent.generated) ::
        !q.parent.rendererEnabled && !q.parent.generated
      ensures p.parent != null && !(old(p.generated) && old(p.neighborState) == p.neighborState) ==>
        !p.parent.rendererEnabled && !p.parent.generated
      ensures p.parent != null && !old(p.parent.rendererEnabled) && !old(p.parent.generated) ==>
        !p.parent.rendererEnabled && !p.parent.generated
    {
      label before:
      p.Generate();
      FinalizeFace(p);
      forall r | r in patches && r != p
        ensures r.Coherent()
      {
        assert unchanged@before(r`neighborState, r`verts, r`tris, r`finalized, r`textured);
      }
      forall q | q in drawn && q != p
        ensures q.Drawn()
      {
        assert unchanged@before(q`neighborState, q`verts, q`tris, q`finalized, q`textured, q`rendererEnabled);
      }
    }
  }

  class Patch {
    const parent: Patch?
    const terrain: Terrain
    /** The centre and the edge. */
    const cx: int
    const cz: int
    const scale: int

    var generated: bool
    var finalized: bool
    var textured: bool
    var rendererEnabled: bool
    /** The neighbour mask the mesh was last generated for. */
    var neighborState: bv4
    /** The mesh: lattice points of the vertices and the triangle index list. */
    var verts: seq<Lattice>
    var tris: seq<int>

    /** A new patch (Initialize): renderer on, nothing generated, finalized or textured. */
    constructor(parent: Patch?, cx: int, cz: int, scale: int, terrain: Terrain)
      ensures this.parent == parent && this.terrain == terrain
      ensures this.cx == cx && this.cz == cz && this.scale == scale
      ensures rendererEnabled && !generated && !finalized && !textured
      ensures neighborState == 0 && verts == [] && tris == [] && Coherent()
    {
      this.parent := parent;
      this.terrain := terrain;
      this.cx := cx;
      this.cz := cz;
      this.scale := scale;
      generated := false;
      finalized := false;
      textured := false;
      rendererEnabled := true;
      neighborState := 0;
      verts := [];
      tris := [];
    }

    /** The tree position of the patch. */
    function Id(): Key
    {
      Key(cx, cz, scale)
    }

    /** PosX / PosZ: the centre, an integer for every patch of the tree. */
    function PosX(): int
    {
      cx
    }

    function PosZ(): int
    {
      cz
    }

    /** The corner the lattice starts from: the centre moved back half an edge along left and along forward. */
    function PositionX(): int
    {
      cx - scale / 2
    }

    function PositionZ(): int
    {
      cz - scale / 2
    }

    /** Where lattice point v lies on the plane: the corner plus half an edge per lattice step, along left and forward. */
    function VertexX(v: Lattice): int
    {
      PositionX() + v.x * (scale / 2)
    }

    function VertexZ(v: Lattice): int
    {
      PositionZ() + v.z * (scale / 2)
    }

    /**
     * The laid-out mesh spans the patch's square: vertex 0 is the centre (PosX, PosZ), every
     * vertex lies in the square of edge scale around it, and two opposite corners of the square
     * are vertices.
     */
    lemma MeshOnSquare(m: bv4)
      requires Placed()
      ensures var vs := Layout(m);
        VertexX(vs[0]) == PosX() && VertexZ(vs[0]) == PosZ() &&
        Lattice(0, 0) in vs && VertexX(Lattice(0, 0)) == PosX() - scale / 2 && VertexZ(Lattice(0, 0)) == PosZ() - scale / 2 &&
        Lattice(2, 2) in vs && VertexX(Lattice(2, 2)) == PosX() + scale / 2 && VertexZ(Lattice(2, 2)) == PosZ() + scale / 2 &&
        forall i | 0 <= i < |vs| ::
          PosX() - scale / 2 <= VertexX(vs[i]) <= PosX() + scale / 2 &&
          PosZ() - scale / 2 <= VertexZ(vs[i]) <= PosZ() + scale / 2
    {
      assert scale % 2 == 0;
      var vs := Layout(m);
      LayoutInLattice(m);
      LayoutCorners(m);
      forall i | 0 <= i < |vs|
        ensures PosX() - scale / 2 <= VertexX(vs[i]) <= PosX() + scale / 2
        ensures PosZ() - scale / 2 <= VertexZ(vs[i]) <= PosZ() + scale / 2
      {
        assert vs[i].x == 0 || vs[i].x == 1 || vs[i].x == 2;
        assert vs[i].z == 0 || vs[i].z == 1 || vs[i].z == 2;
      }
    }

    /** The patch sits in its terrain and is not its own parent. */
    predicate Placed()
    {
      Sits(terrain.scale, cx, cz, scale) && parent != this
    }

    /** The neighbour mask the grid gives the patch now. */
    function Mask(): bv4
      reads terrain, terrain.quadMatrix
      requires terrain.Valid() && Placed()
    {
      NeighbourMask(terrain.quadMatrix[..], terrain.quadSize, Quad(terrain.scale, cx), Quad(terrain.scale, cz), scale)
    }

    /**
     * What every method keeps: a generated patch holds the mesh of its neighbour state, and a
     * finalized one is texturized.
     */
    predicate Coherent()
      reads this`generated, this`neighborState, this`verts, this`tris, this`finalized, this`textured
    {
      (generated ==> verts == Layout(neighborState) && |verts| >= 2 && tris == Fan(|verts|)) &&
      (finalized ==> textured)
    }

    /** The patch is rendered and shows the mesh of the mask the grid gives it, finalized and texturized. */
    ghost predicate Drawn()
      reads this`neighborState, this`verts, this`tris, this`finalized, this`textured, this`rendererEnabled
      reads terrain, terrain.quadMatrix
    {
      rendererEnabled && terrain.Valid() && Placed() && neighborState == Mask() &&
      verts == Layout(neighborState) && |verts| >= 2 && tris == Fan(|verts|) && finalized && textured
    }

    /** The renderer goes off and the mesh counts as not generated. */
    method Dispose()
      modifies this`rendererEnabled, this`generated
      ensures !rendererEnabled && !generated
    {
      rendererEnabled := false;
      generated := false;
    }

    /** Dispose, before the game object is destroyed. */
    method Clear()
      modifies this`rendererEnabled, this`generated
      ensures !rendererEnabled && !generated
    {
      Dispose();
    }

    /** The material is set up once: only the first call has an effect. */
    method Texturize()
      modifies this`textured
      ensures textured
    {
      if textured {
        return;
      }
      textured := true;
    }

    /**
     * The neighbour mask and vertCount of Generate: a side's bit is set, and counted, when the
     * cell one edge away on that side is in the grid and holds neither 0 nor 255.
     */
    method NeighborMask() returns (mask: bv4, vertCount: int)
      requires terrain.Valid() && Placed()
      ensures mask == Mask() && vertCount == PopCount(mask)
    {
      var t := terrain;
      var qx := t.GetQuadX(Id());
      var qz := t.GetQuadZ(Id());
      mask := 0;
      vertCount := 0;
      var forwardZ := qz + scale;
      if forwardZ < t.quadSize {
        if t.GetQuadMatrixData(qx, forwardZ) != 255 && t.GetQuadMatrixData(qx, forwardZ) != 0 {
          mask := mask | Forward;
          vertCount := vertCount + 1;
        }
      }
      var backZ := qz - scale;
      if backZ >= 0 {
        if t.GetQuadMatrixData(qx, backZ) != 255 && t.GetQuadMatrixData(qx, backZ) != 0 {
          mask := mask | Back;
          vertCount := vertCount + 1;
        }
      }
      var leftX := qx + scale;
      if leftX < t.quadSize {
        if t.GetQuadMatrixData(leftX, qz) != 255 && t.GetQuadMatrixData(leftX, qz) != 0 {
          mask := mask | Left;
          vertCount := vertCount + 1;
        }
      }
      var rightX := qx - scale;
      if rightX >= 0 {
        if t.GetQuadMatrixData(rightX, qz) != 255 && t.GetQuadMatrixData(rightX, qz) != 0 {
          mask := mask | Right;
          vertCount := vertCount + 1;
        }
      }
    }

    /**
     * The vertex array for mask m: the centre, then the four sides of the boundary counter-clockwise
     * from (0, 0), the slot advancing with every write.
     */
    static method LayVertices(m: bv4, vertCount: int) returns (vs: array<Lattice>)
      requires vertCount == PopCount(m)
      ensures fresh(vs) && vs[..] == Layout(m)
    {
      vs := new Lattice[(2 + 1) * (2 + 1) - vertCount];
      vs[0] := Lattice(1, 1);
      var i := 1;
      assert vs[..i] == [Centre];
      i := LaySide(vs, i, m, Lattice(0, 0), Lattice(1, 0), Back);
      i := LaySide(vs, i, m, Lattice(2, 0), Lattice(2, 1), Left);
      i := LaySide(vs, i, m, Lattice(2, 2), Lattice(1, 2), Forward);
      i := LaySide(vs, i, m, Lattice(0, 2), Lattice(0, 1), Right);
      AppendFive([Centre], Side(m, Lattice(0, 0), Lattice(1, 0), Back), Side(m, Lattice(2, 0), Lattice(2, 1), Left),
        Side(m, Lattice(2, 2), Lattice(1, 2), Forward), Side(m, Lattice(0, 2), Lattice(0, 1), Right));
      LayoutRing(m);
      assert vs[..] == vs[..i];
    }

    /** One side of the boundary from slot i: its corner, then its midpoint when the side's bit is clear. */
    static method LaySide(vs: array<Lattice>, i: int, m: bv4, corner: Lattice, mid: Lattice, bit: bv4) returns (next: int)
      requires 0 <= i && i + |Side(m, corner, mid, bit)| <= vs.Length
      modifies vs
      ensures next == i + |Side(m, corner, mid, bit)| && vs[..next] == old(vs[..i]) + Side(m, corner, mid, bit)
    {
      vs[i] := corner;
      next := i + 1;
      if m & bit == 0 {
        vs[next] := mid;
        next := next + 1;
      }
    }

    /**
     * The triangle array for len vertices: (0, vi + 1, vi) for vi = 1 .. len - 2, then the closing
     * triangle (0, 1, len - 1); ti advances by three per triangle.
     */
    static method Triangulate(vertCount: int, len: int) returns (ts: array<int>)
      requires 0 <= vertCount <= 4 && len == 9 - vertCount
      ensures fresh(ts) && ts[..] == Fan(len)
    {
      ts := new int[2 * 2 * 6 - vertCount * 3];
      var ti := 0;
      var vi := 1;
      while vi < len - 1
        invariant 1 <= vi <= len - 1 && ti == 3 * (vi - 1)
        invariant ts[..ti] == Strip(vi)
      {
        ts[ti] := 0;
        ts[ti + 1] := vi + 1;
        ts[ti + 2] := vi;
        assert ts[..ti + 3] == ts[..ti] + [0, vi + 1, vi];
        ti := ti + 3;
        vi := vi + 1;
      }
      ts[ti] := 0;
      ts[ti + 1] := 1;
      ts[ti + 2] := len - 1;
      assert ts[..] == ts[..ti] + [0, 1, len - 1];
    }

    /**
     * Generate: the renderer goes on. If the mesh is generated for the mask the grid gives now,
     * nothing else changes; otherwise the neighbour state becomes that mask, the patch is no longer
     * finalized, the mesh is rebuilt for it, the parent is disposed and the patch is generated.
     */
    method Generate()
      requires terrain.Valid() && Placed() && Coherent()
      modifies this, {parent}`rendererEnabled, {parent}`generated
      ensures rendererEnabled && generated && textured == old(textured) && Coherent()
      ensures neighborState == old(Mask()) && verts == Layout(neighborState) && tris == Fan(|verts|)
      ensures old(generated) && old(Mask()) == old(neighborState) ==>
        finalized == old(finalized) && verts == old(verts) && tris == old(tris) &&
        (parent != null ==> parent.rendererEnabled == old(parent.rendererEnabled) && parent.generated == old(parent.generated))
      ensures !(old(generated) && old(Mask()) == old(neighborState)) ==>
        !finalized && (parent != null ==> !parent.rendererEnabled && !parent.generated)
    {
      var cNeighborState, vertCount := NeighborMask();
      rendererEnabled := true;
      if generated && cNeighborState == neighborState {
        return;
      }
      Regenerate(cNeighborState, vertCount);
    }

    /**
     * The rebuilding part of Generate for mask m: the neighbour state becomes m, the patch is no
     * longer finalized, vertices and triangles are laid out for m, the parent is disposed and the
     * patch is generated.
     */
    method Regenerate(m: bv4, vertCount: int)
      requires vertCount == PopCount(m) && parent != this
      modifies this`neighborState, this`finalized, this`verts, this`tris, this`generated
      modifies {parent}`rendererEnabled, {parent}`generated
      ensures neighborState == m && verts == Layout(m) && |verts| >= 2 && tris == Fan(|verts|)
      ensures !finalized && generated
      ensures parent != null ==> !parent.rendererEnabled && !parent.generated
    {
      neighborState := m;
      finalized := false;
      LayoutSize(m);
      var vs := LayVertices(m, vertCount);
      var ts := Triangulate(vertCount, vs.Length);
      verts := vs[..];
      tris := ts[..];
      if parent != null {
        parent.Dispose();
      }
      generated := true;
    }
  }
}
