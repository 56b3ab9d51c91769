/**
 * The patch quadtree as a value, and the per-frame refinement (RefineNode) as a function of the
 * tree, the error grid and the two per-frame tests: the frustum test and the f >= 1 test of
 * Roettger's criterion. The terrain of scale S (a power of two, at least 2) has a grid of side
 * n = S + 1; a patch centred on (cx, cz) owns cell (cx + n / 2, cz + n / 2).
 */
module QuadTree {
  import opened ErrorGrid

  /** A patch as the refinement sees it: centre, edge, renderer and generated flags, children. */
  datatype Node = Node(cx: int, cz: int, scale: int, rendered: bool, generated: bool, kids: seq<Node>)

  /** What identifies a patch: its centre and its edge. */
  datatype Key = Key(cx: int, cz: int, scale: int)

  function KeyOf(t: Node): Key
  {
    Key(t.cx, t.cz, t.scale)
  }

  /** The frustum test of a patch's bounding box, given its centre and edge. */
  type Visible = (int, int, int) -> bool

  /**
   * The f >= 1 test (the patch is fine enough as it is), given the patch's centre and edge and
   * the grid cells right (v1) and left (v2) of its own.
   */
  type Fine = (int, int, int, int, int) -> bool

  /** The grid cell of a patch centre coordinate: GetQuadX / GetQuadZ. */
  function Quad(S: int, c: int): int
  {
    c + (S + 1) / 2
  }

  /** The flat index of the cell of t. */
  function CellOf(S: int, t: Node): int
  {
    Idx(S + 1, Quad(S, t.cx), Quad(S, t.cz))
  }

  /** Child i of a patch of edge s centred on (cx, cz), in SubDivide's order: (-,+), (+,+), (-,-), (+,-). */
  function KidX(cx: int, s: int, i: int): int
  {
    if i % 2 == 0 then cx - s / 4 else cx + s / 4
  }

  function KidZ(cz: int, s: int, i: int): int
  {
    if i < 2 then cz + s / 4 else cz - s / 4
  }

  /**
   * A patch of edge s centred on (cx, cz) sits in a terrain of scale S: both edges are powers of
   * two of at least 2, the patch's square lies inside the terrain, and its cell has an even
   * coordinate sum.
   */
  predicate Sits(S: int, cx: int, cz: int, s: int)
  {
    IsPow2(S) && S >= 2 && IsPow2(s) && s >= 2 &&
    s / 2 <= Quad(S, cx) && Quad(S, cx) + s / 2 <= S &&
    s / 2 <= Quad(S, cz) && Quad(S, cz) + s / 2 <= S &&
    (Quad(S, cx) + Quad(S, cz)) % 2 == 0
  }

  /**
   * t is a patch of a terrain of scale S: it sits in the terrain and is a leaf or has exactly
   * the four children SubDivide makes, each well formed.
   */
  ghost predicate WF(t: Node, S: int)
    decreases t
  {
    Sits(S, t.cx, t.cz, t.scale) &&
    (t.kids == [] || (|t.kids| == 4 && t.scale >= 4 &&
      forall i | 0 <= i < 4 ::
        t.kids[i].cx == KidX(t.cx, t.scale, i) && t.kids[i].cz == KidZ(t.cz, t.scale, i) &&
        t.kids[i].scale == t.scale / 2 && WF(t.kids[i], S)))
  }

  /** Every child of a well-formed patch is well formed. */
  lemma KidsWF(t: Node, S: int)
    requires WF(t, S)
    ensures forall i | 0 <= i < |t.kids| :: WF(t.kids[i], S) && t.kids[i].scale < t.scale
  {
  }

  /** The grid has the terrain's (S + 1) x (S + 1) cells. */
  predicate GridOk(g: seq<int>, S: int)
  {
    |g| == (S + 1) * (S + 1)
  }

  /** The cell of a well-formed patch and its neighbours left and right lie inside the grid. */
  lemma CellInside(t: Node, S: int)
    requires WF(t, S)
    ensures 1 <= Quad(S, t.cx) <= S - 1 && 1 <= Quad(S, t.cz) <= S - 1
    ensures 0 <= CellOf(S, t) - 1 && CellOf(S, t) + 1 < (S + 1) * (S + 1)
    ensures CellOf(S, t) - 1 == Idx(S + 1, Quad(S, t.cx) - 1, Quad(S, t.cz))
    ensures CellOf(S, t) + 1 == Idx(S + 1, Quad(S, t.cx) + 1, Quad(S, t.cz))
  {
    IdxInRange(S + 1, Quad(S, t.cx) - 1, Quad(S, t.cz));
    IdxInRange(S + 1, Quad(S, t.cx) + 1, Quad(S, t.cz));
  }

  // ---------------------------------------------------------------------------------------
  // The tree operations the refinement uses
  // ---------------------------------------------------------------------------------------

  /** The tree with every patch's renderer switched off and nothing else changed: DisableRenderer. */
  function Darken(t: Node): (r: Node)
    ensures r.kids == [] <==> t.kids == []
    decreases t
  {
    Node(t.cx, t.cz, t.scale, false, t.generated, seq(|t.kids|, i requires 0 <= i < |t.kids| => Darken(t.kids[i])))
  }

  /** Two trees with the same patches in the same places, flags aside. */
  ghost predicate SameShape(a: Node, b: Node)
    decreases a
  {
    KeyOf(a) == KeyOf(b) && a.generated == b.generated && |a.kids| == |b.kids| &&
    forall i | 0 <= i < |a.kids| :: SameShape(a.kids[i], b.kids[i])
  }

  /** No patch of the tree is rendered. */
  ghost predicate AllDark(t: Node)
    decreases t
  {
    !t.rendered && forall i | 0 <= i < |t.kids| :: AllDark(t.kids[i])
  }

  /** DisableRenderer switches off the renderer of the patch and of every descendant, and changes nothing else. */
  lemma {:induction false} DarkenSpec(t: Node)
    ensures SameShape(Darken(t), t) && AllDark(Darken(t))
    decreases t
  {
    forall i | 0 <= i < |t.kids| ensures SameShape(Darken(t).kids[i], t.kids[i]) && AllDark(Darken(t).kids[i]) {
      DarkenSpec(t.kids[i]);
    }
  }

  lemma {:induction false} DarkenWF(t: Node, S: int)
    requires WF(t, S)
    ensures WF(Darken(t), S)
    decreases t
  {
    forall i | 0 <= i < |t.kids| ensures WF(Darken(t.kids[i]), S) {
      DarkenWF(t.kids[i], S);
    }
  }

  /** A fresh child patch: renderer on, nothing generated, no children. */
  function NewKid(t: Node, i: int): Node
  {
    Node(KidX(t.cx, t.scale, i), KidZ(t.cz, t.scale, i), t.scale / 2, true, false, [])
  }

  /**
   * SubDivide: four new leaves of half the edge, centred on the quarters in the order (-,+),
   * (+,+), (-,-), (+,-); the patch itself is disposed (renderer off, not generated).
   */
  function Subdivide(t: Node): (r: Node)
    ensures KeyOf(r) == KeyOf(t) && !r.rendered && !r.generated && |r.kids| == 4
    ensures forall i | 0 <= i < 4 :: r.kids[i].rendered && !r.kids[i].generated && r.kids[i].kids == []
  {
    Node(t.cx, t.cz, t.scale, false, false, [NewKid(t, 0), NewKid(t, 1), NewKid(t, 2), NewKid(t, 3)])
  }

  lemma SubdivideWF(t: Node, S: int)
    requires WF(t, S) && t.kids == [] && t.scale >= 4
    ensures WF(Subdivide(t), S)
  {
    NewKidWF(t, S, 0);
    NewKidWF(t, S, 1);
    NewKidWF(t, S, 2);
    NewKidWF(t, S, 3);
  }

  /** Child i made by SubDivide sits in the terrain. */
  lemma NewKidWF(t: Node, S: int, i: int)
    requires WF(t, S) && t.scale >= 4 && 0 <= i < 4
    ensures WF(NewKid(t, i), S)
  {
    KidSits(S, t.cx, t.cz, t.scale, i);
  }

  /** A quarter of a patch that sits in the terrain sits in it too. */
  lemma KidSits(S: int, cx: int, cz: int, s: int, i: int)
    requires Sits(S, cx, cz, s) && s >= 4 && 0 <= i < 4
    ensures Sits(S, KidX(cx, s, i), KidZ(cz, s, i), s / 2)
  {
    Pow2Halves(s);
    KidOffsets(s, i);
    EvenShift(Quad(S, cx) + Quad(S, cz), KidX(0, s, i) + KidZ(0, s, i));
    assert Quad(S, KidX(cx, s, i)) == Quad(S, cx) + KidX(0, s, i);
    assert Quad(S, KidZ(cz, s, i)) == Quad(S, cz) + KidZ(0, s, i);
  }

  /** A child is a quarter edge away from its parent's centre along each axis, an even distance in all. */
  lemma KidOffsets(s: int, i: int)
    requires s % 4 == 0 && s >= 4 && 0 <= i < 4
    ensures var q := s / 4;
      (s / 2) / 2 == q &&
      (KidX(0, s, i) == q || KidX(0, s, i) == -q) && (KidZ(0, s, i) == q || KidZ(0, s, i) == -q) &&
      (KidX(0, s, i) + KidZ(0, s, i)) % 2 == 0
  {
  }

  lemma EvenShift(a: int, d: int)
    requires a % 2 == 0 && d % 2 == 0
    ensures (a + d) % 2 == 0
  {
  }

  /** Which child of a patch centred on (cx, cz) holds the unit square whose lower corner is (px, pz). */
  function Quarter(cx: int, cz: int, px: int, pz: int): int
  {
    (if px < cx then 0 else 1) + (if pz < cz then 2 else 0)
  }

  /** The patch t covers the unit square whose lower corner is (px, pz). */
  predicate Covers(t: Node, px: int, pz: int)
  {
    t.cx - t.scale / 2 <= px < t.cx + t.scale / 2 && t.cz - t.scale / 2 <= pz < t.cz + t.scale / 2
  }

  /**
   * The four children tile their parent: a child covers a unit square exactly when the parent
   * covers it and it lies in that child's quarter, so each square of the parent has one child.
   */
  lemma SubdivideTiles(t: Node, S: int)
    requires WF(t, S) && t.kids == [] && t.scale >= 4
    ensures forall i, px, pz | 0 <= i < 4 ::
      Covers(Subdivide(t).kids[i], px, pz) <==> Covers(t, px, pz) && i == Quarter(t.cx, t.cz, px, pz)
  {
    Pow2Halves(t.scale);
    var q := t.scale / 4;
    assert t.scale / 2 == 2 * q && (t.scale / 2) / 2 == q;
  }

  /** A patch as Clear leaves it once Merge has emptied it: no children, renderer off, not generated. */
  function Retire(t: Node): Node
  {
    t.(rendered := false, generated := false, kids := [])
  }

  /**
   * The patches Merge takes out from below t, as they end up, in the order it clears them: for
   * each child in turn, the patches retired from below the child, then the child itself.
   */
  function Retired(t: Node): seq<Node>
    decreases t, 1
  {
    RetiredKids(t.kids, |t.kids|)
  }

  function RetiredKids(ks: seq<Node>, k: nat): seq<Node>
    requires k <= |ks|
    decreases ks, 0, k
  {
    if k == 0 then [] else RetiredKids(ks, k - 1) + Retired(ks[k - 1]) + [Retire(ks[k - 1])]
  }

  /** d is a proper descendant of t. */
  ghost predicate Below(t: Node, d: Node)
    decreases t
  {
    exists i | 0 <= i < |t.kids| :: d == t.kids[i] || Below(t.kids[i], d)
  }

  /**
   * Merge retires exactly the former descendants: each of them is retired, disposed and without
   * children, and nothing else is.
   */
  lemma {:induction false} RetiredSpec(t: Node)
    ensures forall d | Below(t, d) :: Retire(d) in Retired(t)
    ensures forall q | q in Retired(t) :: exists d :: Below(t, d) && q == Retire(d)
    decreases t, 1
  {
    RetiredKidsSpec(t.kids, |t.kids|);
  }

  lemma {:induction false} RetiredKidsSpec(ks: seq<Node>, k: nat)
    requires k <= |ks|
    ensures forall i, d | 0 <= i < k && (d == ks[i] || Below(ks[i], d)) :: Retire(d) in RetiredKids(ks, k)
    ensures forall q | q in RetiredKids(ks, k) :: exists i, d :: 0 <= i < k && (d == ks[i] || Below(ks[i], d)) && q == Retire(d)
    decreases ks, 0, k
  {
    if k > 0 {
      RetiredKidsSpec(ks, k - 1);
      RetiredSpec(ks[k - 1]);
      var a := RetiredKids(ks, k - 1);
      var b := Retired(ks[k - 1]);
      assert RetiredKids(ks, k) == a + b + [Retire(ks[k - 1])];
      forall q | q in RetiredKids(ks, k)
        ensures exists i, d :: 0 <= i < k && (d == ks[i] || Below(ks[i], d)) && q == Retire(d)
      {
        if q in a {
          var i, d :| 0 <= i < k - 1 && (d == ks[i] || Below(ks[i], d)) && q == Retire(d);
          assert 0 <= i < k;
        } else if q in b {
          var d :| Below(ks[k - 1], d) && q == Retire(d);
          assert 0 <= k - 1 < k;
        } else {
          assert q == Retire(ks[k - 1]);
          assert 0 <= k - 1 < k && ks[k - 1] == ks[k - 1];
        }
      }
    }
  }

  /**
   * Merge: a leaf is left as it is; otherwise each child is merged and then cleared, in order,
   * and the children are dropped. Returns the patch and the retired patches.
   */
  method Merge(t: Node) returns (r: Node, retired: seq<Node>)
    ensures r == t.(kids := []) && retired == Retired(t)
    decreases t
  {
    r := t;
    retired := [];
    if t.kids == [] {
      return;
    }
    for i := 0 to |t.kids|
      invariant retired == RetiredKids(t.kids, i)
    {
      var kid, gone := Merge(t.kids[i]);
      retired := retired + gone + [Retire(kid)];
    }
    r := t.(kids := []);
  }

  /** The cells of children 0 .. k - 1, each overwritten with the cell to its left, in order. */
  function RestoreKids(g: seq<int>, S: int, ks: seq<Node>, k: nat): (r: seq<int>)
    requires GridOk(g, S) && k <= |ks| && forall i | 0 <= i < |ks| :: WF(ks[i], S)
    ensures |r| == |g|
  {
    if k == 0 then g
    else
      var h := RestoreKids(g, S, ks, k - 1);
      var c := CellOf(S, ks[k - 1]);
      CellInside(ks[k - 1], S);
      h[c := h[c - 1]]
  }

  /** Restoring one more child: its cell takes the value of the cell to its left. */
  lemma RestoreKidsNext(g: seq<int>, S: int, ks: seq<Node>, k: nat)
    requires GridOk(g, S) && k < |ks| && forall i | 0 <= i < |ks| :: WF(ks[i], S)
    ensures (CellInside(ks[k], S); var h := RestoreKids(g, S, ks, k); var c := CellOf(S, ks[k]);
      RestoreKids(g, S, ks, k + 1) == h[c := h[c - 1]])
  {
  }

  // ---------------------------------------------------------------------------------------
  // RefineNode
  // ---------------------------------------------------------------------------------------

  /** The outcome of refining a subtree: the new subtree, the new grid and the patches made active. */
  datatype Frame = Frame(tree: Node, grid: seq<int>, active: seq<Key>)

  /** The outcome of refining a run of siblings. */
  datatype KidsFrame = KidsFrame(kids: seq<Node>, grid: seq<int>, active: seq<Key>)

  /** The blend value RefineNode stores for a visible patch: 0 when it is fine enough, 255 otherwise. */
  function Blend(g: seq<int>, S: int, t: Node, fine: Fine): (b: int)
    requires GridOk(g, S) && WF(t, S)
    ensures b == 0 || b == 255
  {
    CellInside(t, S);
    var c := CellOf(S, t);
    if fine(t.cx, t.cz, t.scale, g[c + 1], g[c - 1]) then 0 else 255
  }

  /**
   * One RefineNode call. A culled patch gets cell 0 and its subtree is darkened; a visible one
   * gets its blend value and goes on as Collapse (blend 0) or Descend (blend 255).
   */
  function Refine(t: Node, g: seq<int>, S: int, visible: Visible, fine: Fine): (r: Frame)
    requires GridOk(g, S) && WF(t, S)
    ensures GridOk(r.grid, S) && WF(r.tree, S) && KeyOf(r.tree) == KeyOf(t)
    ensures forall k | k in r.active :: Sits(S, k.cx, k.cz, k.scale) && k.scale <= t.scale && visible(k.cx, k.cz, k.scale)
    decreases t.scale, 2
  {
    CellInside(t, S);
    var c := CellOf(S, t);
    if !visible(t.cx, t.cz, t.scale) then
      DarkenWF(t, S);
      Frame(Darken(t), g[c := 0], [])
    else
      var b := Blend(g, S, t, fine);
      if b == 0 then Collapse(t, g[c := 0], S) else Descend(t, g[c := 255], S, visible, fine)
  }

  /**
   * The blend-0 path: the patch becomes active and, if it has children, their cells and then
   * its own are restored from the cell to the left, and the children are merged away.
   */
  function Collapse(t: Node, g: seq<int>, S: int): (r: Frame)
    requires GridOk(g, S) && WF(t, S)
    ensures GridOk(r.grid, S) && WF(r.tree, S) && KeyOf(r.tree) == KeyOf(t)
    ensures r.tree == t.(kids := []) && r.active == [KeyOf(t)]
  {
    if t.kids == [] then Frame(t, g, [KeyOf(t)])
    else
      CellInside(t, S);
      var c := CellOf(S, t);
      var g2 := RestoreKids(g, S, t.kids, |t.kids|);
      Frame(t.(kids := []), g2[c := g2[c - 1]], [KeyOf(t)])
  }

  /**
   * The blend-255 path: a leaf of edge at least 4 is subdivided, then the children (new or
   * existing) are refined in order.
   */
  function Descend(t: Node, g: seq<int>, S: int, visible: Visible, fine: Fine): (r: Frame)
    requires GridOk(g, S) && WF(t, S)
    ensures GridOk(r.grid, S) && WF(r.tree, S) && KeyOf(r.tree) == KeyOf(t)
    ensures forall k | k in r.active :: Sits(S, k.cx, k.cz, k.scale) && k.scale < t.scale && visible(k.cx, k.cz, k.scale)
    ensures |r.tree.kids| == if t.kids == [] && t.scale >= 4 then 4 else |t.kids|
    decreases t.scale, 1
  {
    var t1 := if t.kids == [] && t.scale >= 4 then SubdivideWF(t, S); Subdivide(t) else t;
    var rk := RefineKids(t1.kids, g, S, visible, fine, t.scale, |t1.kids|);
    RefinedParent(t1, rk, S);
    Frame(t1.(kids := rk.kids), rk.grid, rk.active)
  }

  /** The children of a well-formed patch, refined, keep the patch well formed. */
  lemma RefinedParent(t: Node, rk: KidsFrame, S: int)
    requires WF(t, S) && |rk.kids| == |t.kids|
    requires forall i | 0 <= i < |t.kids| :: WF(rk.kids[i], S) && KeyOf(rk.kids[i]) == KeyOf(t.kids[i])
    ensures WF(t.(kids := rk.kids), S)
  {
  }

  /** RefineNode on the first k of ks in turn, threading the grid and the active list. */
  function RefineKids(ks: seq<Node>, g: seq<int>, S: int, visible: Visible, fine: Fine, s: int, k: nat): (r: KidsFrame)
    requires GridOk(g, S) && k <= |ks| && forall i | 0 <= i < |ks| :: WF(ks[i], S) && ks[i].scale < s
    ensures GridOk(r.grid, S) && |r.kids| == k
    ensures forall i | 0 <= i < k :: WF(r.kids[i], S) && KeyOf(r.kids[i]) == KeyOf(ks[i])
    ensures forall key | key in r.active :: Sits(S, key.cx, key.cz, key.scale) && key.scale < s && visible(key.cx, key.cz, key.scale)
    decreases s, 0, k
  {
    if k == 0 then KidsFrame([], g, [])
    else
      var r := RefineKids(ks, g, S, visible, fine, s, k - 1);
      var c := Refine(ks[k - 1], r.grid, S, visible, fine);
      KidsFrame(r.kids + [c.tree], c.grid, r.active + c.active)
  }

  // ---------------------------------------------------------------------------------------
  // What RefineNode promises
  // ---------------------------------------------------------------------------------------

  /**
   * A patch's cell has an even flat index: the side S + 1 is odd, so the index has the parity of
   * the coordinate sum. The cell to its left therefore has an odd index and is never a patch cell.
   */
  lemma CellEven(t: Node, S: int)
    requires WF(t, S)
    ensures CellOf(S, t) % 2 == 0
  {
    assert S % 2 == 0;
    OddSideParity(S + 1, Quad(S, t.cx), Quad(S, t.cz));
  }

  lemma OddSideParity(n: int, x: int, z: int)
    requires n % 2 == 1
    ensures (z * n + x) % 2 == (x + z) % 2
  {
    var m := n / 2;
    assert z * n == z * (2 * m + 1) == 2 * (z * m) + z;
  }

  /** Restoring children writes only patch cells, which are even, so no odd cell changes. */
  lemma {:induction false} RestoreKidsOdd(g: seq<int>, S: int, ks: seq<Node>, k: nat)
    requires GridOk(g, S) && k <= |ks| && forall i | 0 <= i < |ks| :: WF(ks[i], S)
    ensures forall j | 0 <= j < |g| && j % 2 == 1 :: RestoreKids(g, S, ks, k)[j] == g[j]
  {
    if k > 0 {
      RestoreKidsOdd(g, S, ks, k - 1);
      CellEven(ks[k - 1], S);
    }
  }

  /** Restoring the first k children leaves every cell that is not one of theirs as it was. */
  lemma {:induction false} RestoreKidsFrame(g: seq<int>, S: int, ks: seq<Node>, k: nat)
    requires GridOk(g, S) && k <= |ks| && forall i | 0 <= i < |ks| :: WF(ks[i], S)
    ensures forall j | 0 <= j < |g| && (forall i | 0 <= i < k :: j != CellOf(S, ks[i])) ::
      RestoreKids(g, S, ks, k)[j] == g[j]
  {
    if k > 0 {
      RestoreKidsFrame(g, S, ks, k - 1);
    }
  }

  /**
   * Restoring the first k children overwrites each child's cell with the value the cell to its
   * left held before.
   */
  lemma {:induction false} RestoreKidsSpec(g: seq<int>, S: int, ks: seq<Node>, k: nat)
    requires GridOk(g, S) && k <= |ks| && forall i | 0 <= i < |ks| :: WF(ks[i], S)
    ensures forall i | 0 <= i < k ::
      1 <= CellOf(S, ks[i]) < |g| && RestoreKids(g, S, ks, k)[CellOf(S, ks[i])] == g[CellOf(S, ks[i]) - 1]
  {
    if k > 0 {
      RestoreKidsSpec(g, S, ks, k - 1);
      var h := RestoreKids(g, S, ks, k - 1);
      var c := CellOf(S, ks[k - 1]);
      CellInside(ks[k - 1], S);
      CellEven(ks[k - 1], S);
      RestoreKidsOdd(g, S, ks, k - 1);
      EvenApart(c, c);
      var r := h[c := h[c - 1]];
      assert RestoreKids(g, S, ks, k) == r;
      forall i | 0 <= i < k
        ensures 1 <= CellOf(S, ks[i]) < |g| && r[CellOf(S, ks[i])] == g[CellOf(S, ks[i]) - 1]
      {
        RestoreOne(g, h, c, CellOf(S, ks[i]));
      }
    }
  }

  /** One restore step keeps every restored cell's value: the cell just written gets its left
   *  neighbour's original value, the others are not touched. */
  lemma RestoreOne(g: seq<int>, h: seq<int>, c: int, x: int)
    requires |h| == |g| && 1 <= c < |g| && h[c - 1] == g[c - 1]
    requires 1 <= x < |g| && (x != c ==> h[x] == g[x - 1])
    ensures h[c := h[c - 1]][x] == g[x - 1]
  {
  }

  /**
   * The blend-0 path on a parent: its four children's cells and then its own are each
   * overwritten with the cell to their left, and no other cell (a grandchild's in particular)
   * changes. On a leaf the grid is left alone.
   */
  lemma CollapseGrid(t: Node, g: seq<int>, S: int)
    requires GridOk(g, S) && WF(t, S) && t.kids != []
    ensures var r := Collapse(t, g, S).grid; var c := CellOf(S, t);
      1 <= c < |g| && r[c] == g[c - 1] &&
      (forall i | 0 <= i < 4 :: 1 <= CellOf(S, t.kids[i]) < |g| && r[CellOf(S, t.kids[i])] == g[CellOf(S, t.kids[i]) - 1]) &&
      forall j | 0 <= j < |g| && j != c && (forall i | 0 <= i < 4 :: j != CellOf(S, t.kids[i])) :: r[j] == g[j]
  {
    CollapseKidCells(t, g, S);
    CollapseFrame(t, g, S);
  }

  /** The grid Collapse leaves on a parent, as the restored children's grid with the parent's cell restored too. */
  lemma CollapseIs(t: Node, g: seq<int>, S: int)
    requires GridOk(g, S) && WF(t, S) && t.kids != []
    ensures (CellInside(t, S); var c := CellOf(S, t); var g2 := RestoreKids(g, S, t.kids, |t.kids|);
      Collapse(t, g, S).grid == g2[c := g2[c - 1]])
  {
  }

  lemma CollapseKidCells(t: Node, g: seq<int>, S: int)
    requires GridOk(g, S) && WF(t, S) && t.kids != []
    ensures var r := Collapse(t, g, S).grid; var c := CellOf(S, t);
      1 <= c < |g| && r[c] == g[c - 1] &&
      forall i | 0 <= i < 4 :: 1 <= CellOf(S, t.kids[i]) < |g| && r[CellOf(S, t.kids[i])] == g[CellOf(S, t.kids[i]) - 1]
  {
    var c := CellOf(S, t);
    CellInside(t, S);
    CollapseIs(t, g, S);
    var g2 := RestoreKids(g, S, t.kids, |t.kids|);
    CellEven(t, S);
    EvenApart(c, c);
    RestoreKidsOdd(g, S, t.kids, |t.kids|);
    assert g2[c - 1] == g[c - 1];
    RestoreKidsSpec(g, S, t.kids, |t.kids|);
    forall i | 0 <= i < 4
      ensures 1 <= CellOf(S, t.kids[i]) < |g| && g2[c := g2[c - 1]][CellOf(S, t.kids[i])] == g[CellOf(S, t.kids[i]) - 1]
    {
      RestoreOne(g, g2, c, CellOf(S, t.kids[i]));
    }
  }

  lemma CollapseFrame(t: Node, g: seq<int>, S: int)
    requires GridOk(g, S) && WF(t, S) && t.kids != []
    ensures var r := Collapse(t, g, S).grid; var c := CellOf(S, t);
      forall j | 0 <= j < |g| && j != c && (forall i | 0 <= i < 4 :: j != CellOf(S, t.kids[i])) :: r[j] == g[j]
  {
    CellInside(t, S);
    CollapseIs(t, g, S);
    RestoreKidsFrame(g, S, t.kids, |t.kids|);
  }

  lemma EvenApart(a: int, b: int)
    requires a % 2 == 0 && b % 2 == 0
    ensures a != b - 1 && (b - 1) % 2 == 1
  {
  }

  /**
   * A culled patch: its cell becomes 0, nothing becomes active, and the subtree keeps its shape
   * with every renderer switched off.
   */
  lemma RefineCulled(t: Node, g: seq<int>, S: int, visible: Visible, fine: Fine)
    requires GridOk(g, S) && WF(t, S) && !visible(t.cx, t.cz, t.scale)
    ensures var r := Refine(t, g, S, visible, fine);
      r.active == [] && SameShape(r.tree, t) && AllDark(r.tree) &&
      (CellInside(t, S); r.grid == g[CellOf(S, t) := 0])
  {
    DarkenSpec(t);
  }

  /**
   * A visible patch becomes active exactly when its blend value is 0, and it then ends as a leaf
   * and is the only active patch.
   */
  lemma RefineActive(t: Node, g: seq<int>, S: int, visible: Visible, fine: Fine)
    requires GridOk(g, S) && WF(t, S) && visible(t.cx, t.cz, t.scale)
    ensures var r := Refine(t, g, S, visible, fine);
      (KeyOf(t) in r.active <==> Blend(g, S, t, fine) == 0) &&
      (Blend(g, S, t, fine) == 0 ==> r.tree == t.(kids := []) && r.active == [KeyOf(t)]) &&
      (Blend(g, S, t, fine) == 0 && t.kids == [] ==> (CellInside(t, S); r.grid == g[CellOf(S, t) := 0]))
  {
    var r := Refine(t, g, S, visible, fine);
    if Blend(g, S, t, fine) == 255 {
      CellInside(t, S);
      var d := Descend(t, g[CellOf(S, t) := 255], S, visible, fine);
      assert r == d;
      assert KeyOf(t) !in d.active;
    }
  }

  /**
   * With blend 255 a leaf of edge at least 4 gains four children and an existing subtree keeps
   * its children; a smaller leaf stays as it is, with cell 255 and nothing active.
   */
  lemma RefineDescends(t: Node, g: seq<int>, S: int, visible: Visible, fine: Fine)
    requires GridOk(g, S) && WF(t, S) && visible(t.cx, t.cz, t.scale) && Blend(g, S, t, fine) == 255
    ensures var r := Refine(t, g, S, visible, fine);
      |r.tree.kids| == (if t.kids == [] && t.scale >= 4 then 4 else |t.kids|) &&
      (t.kids == [] && t.scale < 4 ==>
        r.tree == t && r.active == [] && (CellInside(t, S); r.grid == g[CellOf(S, t) := 255]))
  {
    CellInside(t, S);
    var g1 := g[CellOf(S, t) := 255];
    var d := Descend(t, g1, S, visible, fine);
    assert Refine(t, g, S, visible, fine) == d;
    if t.kids == [] && t.scale < 4 {
      assert RefineKids([], g1, S, visible, fine, t.scale, 0) == KidsFrame([], g1, []);
      assert d == Frame(t.(kids := []), g1, []);
      assert t.(kids := []) == t;
    }
  }

  // ---------------------------------------------------------------------------------------
  // Which cells RefineNode writes, and which patches it makes active
  // ---------------------------------------------------------------------------------------

  /** The patch k's square contains the square of patch k'. */
  predicate Within(k: Key, k': Key)
  {
    k.cx - k.scale / 2 <= k'.cx - k'.scale / 2 && k'.cx + k'.scale / 2 <= k.cx + k.scale / 2 &&
    k.cz - k.scale / 2 <= k'.cz - k'.scale / 2 && k'.cz + k'.scale / 2 <= k.cz + k.scale / 2
  }

  /** The point (x, z) lies strictly inside the square of patch k. */
  predicate Inside(k: Key, x: int, z: int)
  {
    k.cx - k.scale / 2 < x < k.cx + k.scale / 2 && k.cz - k.scale / 2 < z < k.cz + k.scale / 2
  }

  /** The point (x, z), in centre coordinates, is a cell of the grid of a terrain of scale S. */
  predicate OnGrid(S: int, x: int, z: int)
  {
    0 <= Quad(S, x) <= S && 0 <= Quad(S, z) <= S
  }

  /** The grid cell of the point (x, z); CellOf(S, t) is CellAt(S, t.cx, t.cz). */
  function CellAt(S: int, x: int, z: int): (i: int)
    requires OnGrid(S, x, z)
    ensures 0 <= i < (S + 1) * (S + 1)
  {
    Idx(S + 1, Quad(S, x), Quad(S, z))
  }

  /** A child's square lies in its parent's and leaves the parent's centre on its border. */
  lemma KidWithin(cx: int, cz: int, s: int, i: int)
    requires s % 4 == 0 && s >= 4 && 0 <= i < 4
    ensures Within(Key(cx, cz, s), Key(KidX(cx, s, i), KidZ(cz, s, i), s / 2))
    ensures Inside(Key(cx, cz, s), KidX(cx, s, i), KidZ(cz, s, i))
    ensures !Inside(Key(KidX(cx, s, i), KidZ(cz, s, i), s / 2), cx, cz)
  {
    KidOffsets(s, i);
  }

  /** A patch inside child i of a patch has its centre in quarter i of that patch. */
  lemma QuarterOfWithin(cx: int, cz: int, s: int, i: int, k: Key)
    requires s % 4 == 0 && s >= 4 && 0 <= i < 4 && k.scale >= 2
    requires Within(Key(KidX(cx, s, i), KidZ(cz, s, i), s / 2), k)
    ensures Quarter(cx, cz, k.cx, k.cz) == i
  {
    KidOffsets(s, i);
  }

  /** Points that are not the centre of a well-formed patch have other cells than the patch's. */
  lemma CellApart(t: Node, S: int, x: int, z: int)
    requires WF(t, S) && OnGrid(S, x, z) && (x != t.cx || z != t.cz)
    ensures CellOf(S, t) != CellAt(S, x, z)
  {
    CellInside(t, S);
    IdxInjective(S + 1, Quad(S, t.cx), Quad(S, t.cz), Quad(S, x), Quad(S, z));
  }

  /** The children of a well-formed parent sit inside it, each with its own quarter. */
  lemma KidsWithin(t: Node, S: int)
    requires WF(t, S) && t.kids != []
    ensures t.scale % 4 == 0 && t.scale >= 4
    ensures forall i | 0 <= i < 4 :: Within(KeyOf(t), KeyOf(t.kids[i])) && Inside(KeyOf(t), t.kids[i].cx, t.kids[i].cz)
  {
    Pow2Halves(t.scale);
    forall i | 0 <= i < 4
      ensures Within(KeyOf(t), KeyOf(t.kids[i])) && Inside(KeyOf(t), t.kids[i].cx, t.kids[i].cz)
    {
      KidWithin(t.cx, t.cz, t.scale, i);
    }
  }

  /** The node Descend refines the children of: t, or t subdivided. */
  function Opened(t: Node, S: int): (t1: Node)
    requires WF(t, S)
    ensures WF(t1, S) && KeyOf(t1) == KeyOf(t)
  {
    if t.kids == [] && t.scale >= 4 then SubdivideWF(t, S); Subdivide(t) else t
  }

  lemma DescendOpened(t: Node, g: seq<int>, S: int, visible: Visible, fine: Fine)
    requires GridOk(g, S) && WF(t, S)
    ensures var t1 := Opened(t, S); var rk := RefineKids(t1.kids, g, S, visible, fine, t1.scale, |t1.kids|);
      Descend(t, g, S, visible, fine) == Frame(t1.(kids := rk.kids), rk.grid, rk.active)
  {
  }

  /**
   * RefineNode writes only the cells of patches at or below t, all of which lie strictly inside
   * t's square: the cell of any point outside it keeps its value.
   */
  lemma {:induction false} RefineOutside(t: Node, g: seq<int>, S: int, visible: Visible, fine: Fine, x: int, z: int)
    requires GridOk(g, S) && WF(t, S) && OnGrid(S, x, z) && !Inside(KeyOf(t), x, z)
    ensures Refine(t, g, S, visible, fine).grid[CellAt(S, x, z)] == g[CellAt(S, x, z)]
    decreases t.scale, 2
  {
    CellInside(t, S);
    var c := CellOf(S, t);
    CellApart(t, S, x, z);
    if visible(t.cx, t.cz, t.scale) {
      if Blend(g, S, t, fine) == 0 {
        CollapseOutside(t, g[c := 0], S, x, z);
      } else {
        DescendOutside(t, g[c := 255], S, visible, fine, x, z);
      }
    }
  }

  lemma CollapseOutside(t: Node, g: seq<int>, S: int, x: int, z: int)
    requires GridOk(g, S) && WF(t, S) && OnGrid(S, x, z) && !Inside(KeyOf(t), x, z)
    ensures Collapse(t, g, S).grid[CellAt(S, x, z)] == g[CellAt(S, x, z)]
  {
    if t.kids != [] {
      CellApart(t, S, x, z);
      KidsWithin(t, S);
      forall i | 0 <= i < 4
        ensures CellAt(S, x, z) != CellOf(S, t.kids[i])
      {
        CellApart(t.kids[i], S, x, z);
      }
      RestoreKidsFrame(g, S, t.kids, |t.kids|);
    }
  }

  lemma {:induction false} DescendOutside(t: Node, g: seq<int>, S: int, visible: Visible, fine: Fine, x: int, z: int)
    requires GridOk(g, S) && WF(t, S) && OnGrid(S, x, z) && !Inside(KeyOf(t), x, z)
    ensures Descend(t, g, S, visible, fine).grid[CellAt(S, x, z)] == g[CellAt(S, x, z)]
    decreases t.scale, 1
  {
    var t1 := Opened(t, S);
    DescendOpened(t, g, S, visible, fine);
    if t1.kids != [] {
      KidsWithin(t1, S);
      forall i | 0 <= i < |t1.kids|
        ensures !Inside(KeyOf(t1.kids[i]), x, z)
      {
        OutsideWithin(KeyOf(t1), KeyOf(t1.kids[i]), x, z);
      }
    }
    RefineKidsOutside(t1, g, S, visible, fine, |t1.kids|, x, z);
  }

  /** A point outside a patch's square is outside the square of every patch within it. */
  lemma OutsideWithin(k: Key, k': Key, x: int, z: int)
    requires Within(k, k') && !Inside(k, x, z)
    ensures !Inside(k', x, z)
  {
  }

  /** Refining the children in turn leaves alone the cell of a point inside none of them. */
  lemma {:induction false} RefineKidsOutside(p: Node, g: seq<int>, S: int, visible: Visible, fine: Fine, k: nat, x: int, z: int)
    requires GridOk(g, S) && WF(p, S) && k <= |p.kids| && OnGrid(S, x, z)
    requires forall i | 0 <= i < |p.kids| :: !Inside(KeyOf(p.kids[i]), x, z)
    ensures RefineKids(p.kids, g, S, visible, fine, p.scale, k).grid[CellAt(S, x, z)] == g[CellAt(S, x, z)]
    decreases p.scale, 0, k
  {
    if k > 0 {
      RefineKidsOutside(p, g, S, visible, fine, k - 1, x, z);
      var r := RefineKids(p.kids, g, S, visible, fine, p.scale, k - 1);
      RefineOutside(p.kids[k - 1], r.grid, S, visible, fine, x, z);
    }
  }

  /** On the blend-255 path the patch's own cell keeps 255: refining the children never writes it. */
  lemma RefineMarksParent(t: Node, g: seq<int>, S: int, visible: Visible, fine: Fine)
    requires GridOk(g, S) && WF(t, S) && visible(t.cx, t.cz, t.scale) && Blend(g, S, t, fine) == 255
    ensures (CellInside(t, S); Refine(t, g, S, visible, fine).grid[CellOf(S, t)] == 255)
  {
    CellInside(t, S);
    var c := CellOf(S, t);
    var t1 := Opened(t, S);
    DescendOpened(t, g[c := 255], S, visible, fine);
    if t1.kids != [] {
      Pow2Halves(t1.scale);
      forall i | 0 <= i < 4
        ensures !Inside(KeyOf(t1.kids[i]), t.cx, t.cz)
      {
        KidWithin(t.cx, t.cz, t.scale, i);
      }
    }
    RefineKidsOutside(t1, g[c := 255], S, visible, fine, |t1.kids|, t.cx, t.cz);
  }

  /** RefineNode writes only patch cells, which are even: every odd cell keeps its value. */
  lemma {:induction false} RefineOdd(t: Node, g: seq<int>, S: int, visible: Visible, fine: Fine, j: int)
    requires GridOk(g, S) && WF(t, S) && 0 <= j < |g| && j % 2 == 1
    ensures Refine(t, g, S, visible, fine).grid[j] == g[j]
    decreases t.scale, 2
  {
    CellInside(t, S);
    CellEven(t, S);
    var c := CellOf(S, t);
    EvenApart(c, c);
    if visible(t.cx, t.cz, t.scale) {
      if Blend(g, S, t, fine) == 0 {
        if t.kids != [] {
          RestoreKidsOdd(g[c := 0], S, t.kids, |t.kids|);
        }
      } else {
        var t1 := Opened(t, S);
        DescendOpened(t, g[c := 255], S, visible, fine);
        RefineKidsOdd(t1, g[c := 255], S, visible, fine, |t1.kids|, j);
      }
    }
  }

  lemma {:induction false} RefineKidsOdd(p: Node, g: seq<int>, S: int, visible: Visible, fine: Fine, k: nat, j: int)
    requires GridOk(g, S) && WF(p, S) && k <= |p.kids| && 0 <= j < |g| && j % 2 == 1
    ensures RefineKids(p.kids, g, S, visible, fine, p.scale, k).grid[j] == g[j]
    decreases p.scale, 0, k
  {
    if k > 0 {
      RefineKidsOdd(p, g, S, visible, fine, k - 1, j);
      var r := RefineKids(p.kids, g, S, visible, fine, p.scale, k - 1);
      RefineOdd(p.kids[k - 1], r.grid, S, visible, fine, j);
    }
  }

  // ---------------------------------------------------------------------------------------
  // What a merge gives back
  // ---------------------------------------------------------------------------------------

  /**
   * The patch's cell lies on the lattice of its edge: both coordinates are odd multiples of half
   * the edge, as for the root and, by KidsAligned, for every patch SubDivide makes from it.
   */
  predicate Aligned(S: int, t: Node)
  {
    t.scale > 0 && Quad(S, t.cx) % t.scale == t.scale / 2 && Quad(S, t.cz) % t.scale == t.scale / 2
  }

  /** The root patch, centred on the origin with the terrain's edge, is aligned. */
  lemma RootAligned(S: int, rendered: bool, generated: bool, kids: seq<Node>)
    requires IsPow2(S) && S >= 2
    ensures Aligned(S, Node(0, 0, S, rendered, generated, kids))
  {
    assert S % 2 == 0;
    ModUnique(S / 2, S, 0, S / 2);
  }

  /** Moving an odd multiple of s / 2 by a quarter of s either way gives an odd multiple of s / 4. */
  lemma QuarterShift(c: int, s: int, d: int)
    requires s >= 4 && s % 4 == 0 && c % s == s / 2 && (d == s / 4 || d == -(s / 4))
    ensures (c + d) % (s / 2) == (s / 2) / 2
  {
    var q, m := c / s, s / 4;
    assert s == 4 * m && s / 2 == 2 * m && (s / 2) / 2 == m;
    assert c == q * s + s / 2;
    assert q * s == (2 * q) * (2 * m);
    if d == m {
      assert c + d == (2 * q + 1) * (2 * m) + m;
      ModUnique(c + d, 2 * m, 2 * q + 1, m);
    } else {
      assert c + d == (2 * q) * (2 * m) + m;
      ModUnique(c + d, 2 * m, 2 * q, m);
    }
  }

  /** The children of an aligned patch are aligned. */
  lemma KidsAligned(t: Node, S: int)
    requires WF(t, S) && Aligned(S, t)
    ensures forall i | 0 <= i < |t.kids| :: Aligned(S, t.kids[i])
  {
    if t.kids != [] {
      Pow2Halves(t.scale);
      forall i | 0 <= i < 4
        ensures Aligned(S, t.kids[i])
      {
        QuarterShift(Quad(S, t.cx), t.scale, Quad(S, t.kids[i].cx) - Quad(S, t.cx));
        QuarterShift(Quad(S, t.cz), t.scale, Quad(S, t.kids[i].cz) - Quad(S, t.cz));
      }
    }
  }

  /**
   * After the construction's propagation over the all-ones grid, every aligned patch's cell and
   * the cell to its left hold the same value.
   */
  lemma PatchPair(t: Node, S: int, h: (int, int) -> real, ub: real)
    requires WF(t, S) && Aligned(S, t)
    ensures (CellInside(t, S); var R := Roughened(seq((S + 1) * (S + 1), _ => 1), S, h, ub);
      R[CellOf(S, t)] == R[CellOf(S, t) - 1])
  {
    CellInside(t, S);
    RoughenedPair(seq((S + 1) * (S + 1), _ => 1), S, h, ub, t.scale, Quad(S, t.cx), Quad(S, t.cz));
  }

  /**
   * A merge gives the cells back the values the propagation gave them. Refinement never changes
   * an odd cell (RefineOdd), so the odd cells still hold their propagated values R. The blend-0
   * path on an aligned parent then leaves R in the parent's cell and in each child's: each is
   * copied from the odd cell to its left, which holds R of that cell by PatchPair.
   */
  lemma CollapseRestores(t: Node, g: seq<int>, S: int, h: (int, int) -> real, ub: real)
    requires GridOk(g, S) && WF(t, S) && Aligned(S, t) && t.kids != []
    requires forall j | 0 <= j < |g| && j % 2 == 1 :: g[j] == Roughened(seq((S + 1) * (S + 1), _ => 1), S, h, ub)[j]
    ensures var r, R := Collapse(t, g, S).grid, Roughened(seq((S + 1) * (S + 1), _ => 1), S, h, ub);
      0 <= CellOf(S, t) < |g| && r[CellOf(S, t)] == R[CellOf(S, t)] &&
      forall i | 0 <= i < 4 :: 0 <= CellOf(S, t.kids[i]) < |g| && r[CellOf(S, t.kids[i])] == R[CellOf(S, t.kids[i])]
  {
    CollapseGrid(t, g, S);
    KidsAligned(t, S);
    KidsWF(t, S);
    RestoredCell(t, g, S, h, ub);
    forall i | 0 <= i < 4
      ensures 0 <= CellOf(S, t.kids[i]) < |g| && Collapse(t, g, S).grid[CellOf(S, t.kids[i])] == Roughened(seq((S + 1) * (S + 1), _ => 1), S, h, ub)[CellOf(S, t.kids[i])]
    {
      RestoredCell(t.kids[i], g, S, h, ub);
    }
  }

  /** The odd cell left of an aligned patch's cell holds R of the patch's cell. */
  lemma RestoredCell(t: Node, g: seq<int>, S: int, h: (int, int) -> real, ub: real)
    requires GridOk(g, S) && WF(t, S) && Aligned(S, t)
    requires forall j | 0 <= j < |g| && j % 2 == 1 :: g[j] == Roughened(seq((S + 1) * (S + 1), _ => 1), S, h, ub)[j]
    ensures 1 <= CellOf(S, t) < |g| && g[CellOf(S, t) - 1] == Roughened(seq((S + 1) * (S + 1), _ => 1), S, h, ub)[CellOf(S, t)]
  {
    CellInside(t, S);
    CellEven(t, S);
    EvenApart(CellOf(S, t), CellOf(S, t));
    PatchPair(t, S, h, ub);
  }

  /** k is the key of a leaf of t. */
  ghost predicate HasLeaf(t: Node, k: Key)
    decreases t
  {
    if t.kids == [] then KeyOf(t) == k else exists i | 0 <= i < |t.kids| :: HasLeaf(t.kids[i], k)
  }

  /** No key appears twice. */
  predicate NoDup(ks: seq<Key>)
  {
    forall i, j | 0 <= i < j < |ks| :: ks[i] != ks[j]
  }

  lemma NoDupJoin(a: seq<Key>, b: seq<Key>)
    requires NoDup(a) && NoDup(b) && forall k | k in a :: k !in b
    ensures NoDup(a + b)
  {
    forall i, j | 0 <= i < j < |a + b|
      ensures (a + b)[i] != (a + b)[j]
    {
      if i < |a| && j >= |a| {
        assert (a + b)[i] == a[i] && a[i] in a;
        assert (a + b)[j] == b[j - |a|] && b[j - |a|] in b;
      }
    }
  }

  /**
   * The patches RefineNode makes active are leaves of the refined tree, lie within the patch it
   * started from, and appear once each: the active list is a set of leaves to draw.
   */
  lemma {:induction false} RefineLeaves(t: Node, g: seq<int>, S: int, visible: Visible, fine: Fine)
    requires GridOk(g, S) && WF(t, S)
    ensures var r := Refine(t, g, S, visible, fine);
      NoDup(r.active) && forall k | k in r.active :: HasLeaf(r.tree, k) && Within(KeyOf(t), k)
    decreases t.scale, 2
  {
    CellInside(t, S);
    var c := CellOf(S, t);
    if visible(t.cx, t.cz, t.scale) {
      if Blend(g, S, t, fine) == 0 {
        var r := Collapse(t, g[c := 0], S);
        assert HasLeaf(r.tree, KeyOf(t));
      } else {
        DescendLeaves(t, g[c := 255], S, visible, fine);
      }
    }
  }

  lemma {:induction false} DescendLeaves(t: Node, g: seq<int>, S: int, visible: Visible, fine: Fine)
    requires GridOk(g, S) && WF(t, S)
    ensures var r := Descend(t, g, S, visible, fine);
      NoDup(r.active) && forall k | k in r.active :: HasLeaf(r.tree, k) && Within(KeyOf(t), k)
    decreases t.scale, 1
  {
    var t1 := Opened(t, S);
    DescendOpened(t, g, S, visible, fine);
    var rk := RefineKids(t1.kids, g, S, visible, fine, t1.scale, |t1.kids|);
    RefineKidsLeaves(t1, g, S, visible, fine, |t1.kids|);
    if t1.kids != [] {
      KidsWithin(t1, S);
    }
    forall k | k in rk.active
      ensures HasLeaf(t1.(kids := rk.kids), k) && Within(KeyOf(t1), k)
    {
      PlacedLeaf(t1, rk.kids, k);
    }
  }

  /**
   * key is active from the first k refined children kids of p: it lies within the child whose
   * quarter holds its centre, and is a leaf of that child's refined subtree.
   */
  ghost predicate Placed(p: Node, kids: seq<Node>, k: nat, key: Key)
  {
    var q := Quarter(p.cx, p.cz, key.cx, key.cz);
    q < k && q < |kids| && q < |p.kids| && HasLeaf(kids[q], key) && Within(KeyOf(p.kids[q]), key)
  }

  /** A patch placed in a child of p is a leaf of p with its children refined, and lies within p. */
  lemma PlacedLeaf(p: Node, kids: seq<Node>, key: Key)
    requires Placed(p, kids, |kids|, key)
    requires forall i | 0 <= i < |p.kids| :: Within(KeyOf(p), KeyOf(p.kids[i]))
    ensures HasLeaf(p.(kids := kids), key) && Within(KeyOf(p), key)
  {
    var q := Quarter(p.cx, p.cz, key.cx, key.cz);
    assert HasLeaf(kids[q], key);
  }

  /** Refining one more child keeps every earlier active patch placed. */
  lemma PlacedExtend(p: Node, kids: seq<Node>, tree: Node, key: Key)
    requires Placed(p, kids, |kids|, key)
    ensures Placed(p, kids + [tree], |kids| + 1, key)
  {
    var q := Quarter(p.cx, p.cz, key.cx, key.cz);
    assert (kids + [tree])[q] == kids[q];
  }

  /** An active patch from child k - 1 of p is placed by the first k refined children. */
  lemma PlacedLast(p: Node, kids: seq<Node>, tree: Node, key: Key)
    requires |kids| < |p.kids| == 4 && p.scale % 4 == 0 && p.scale >= 4 && key.scale >= 2
    requires KeyOf(p.kids[|kids|]) == Key(KidX(p.cx, p.scale, |kids|), KidZ(p.cz, p.scale, |kids|), p.scale / 2)
    requires HasLeaf(tree, key) && Within(KeyOf(p.kids[|kids|]), key)
    ensures Quarter(p.cx, p.cz, key.cx, key.cz) == |kids|
    ensures Placed(p, kids + [tree], |kids| + 1, key)
  {
    QuarterOfWithin(p.cx, p.cz, p.scale, |kids|, key);
    assert (kids + [tree])[|kids|] == tree;
  }

  /**
   * Refining the first k children of p: each active patch lies within the child whose quarter
   * holds its centre, is a leaf of that child's refined subtree, and appears once.
   */
  lemma {:induction false} RefineKidsLeaves(p: Node, g: seq<int>, S: int, visible: Visible, fine: Fine, k: nat)
    requires GridOk(g, S) && WF(p, S) && k <= |p.kids|
    ensures var r := RefineKids(p.kids, g, S, visible, fine, p.scale, k);
      NoDup(r.active) && forall key | key in r.active :: Placed(p, r.kids, k, key)
    decreases p.scale, 0, k
  {
    if k > 0 {
      RefineKidsLeaves(p, g, S, visible, fine, k - 1);
      var r0 := RefineKids(p.kids, g, S, visible, fine, p.scale, k - 1);
      var kid := p.kids[k - 1];
      RefineLeaves(kid, r0.grid, S, visible, fine);
      var c := Refine(kid, r0.grid, S, visible, fine);
      var r := RefineKids(p.kids, g, S, visible, fine, p.scale, k);
      assert r == KidsFrame(r0.kids + [c.tree], c.grid, r0.active + c.active);
      Pow2Halves(p.scale);
      JoinPlaced(p, r0.kids, r0.active, c.tree, c.active);
    }
  }

  /** The active list of the first k - 1 children, followed by that of child k - 1, stays placed and without repeats. */
  lemma JoinPlaced(p: Node, kids: seq<Node>, a0: seq<Key>, tree: Node, a1: seq<Key>)
    requires |kids| < |p.kids| == 4 && p.scale % 4 == 0 && p.scale >= 4
    requires KeyOf(p.kids[|kids|]) == Key(KidX(p.cx, p.scale, |kids|), KidZ(p.cz, p.scale, |kids|), p.scale / 2)
    requires NoDup(a0) && forall key | key in a0 :: Placed(p, kids, |kids|, key)
    requires NoDup(a1) && forall key | key in a1 :: key.scale >= 2 && HasLeaf(tree, key) && Within(KeyOf(p.kids[|kids|]), key)
    ensures NoDup(a0 + a1) && forall key | key in a0 + a1 :: Placed(p, kids + [tree], |kids| + 1, key)
  {
    forall key | key in a1
      ensures Quarter(p.cx, p.cz, key.cx, key.cz) == |kids| && Placed(p, kids + [tree], |kids| + 1, key)
    {
      PlacedLast(p, kids, tree, key);
    }
    forall key | key in a0
      ensures Quarter(p.cx, p.cz, key.cx, key.cz) < |kids| && Placed(p, kids + [tree], |kids| + 1, key)
    {
      PlacedExtend(p, kids, tree, key);
    }
    NoDupJoin(a0, a1);
  }

  /** A leaf of a well-formed tree lies within the tree's root square and has edge at least 2. */
  lemma {:induction false} LeafWithin(t: Node, S: int, k: Key)
    requires WF(t, S) && HasLeaf(t, k)
    ensures Within(KeyOf(t), k) && k.scale >= 2
    decreases t
  {
    if t.kids != [] {
      var i :| 0 <= i < |t.kids| && HasLeaf(t.kids[i], k);
      LeafWithin(t.kids[i], S, k);
      KidsWithin(t, S);
    }
  }

  /** Leaves of a well-formed tree never nest: a leaf within another leaf is that leaf. */
  lemma {:induction false} LeavesNest(t: Node, S: int, k: Key, k': Key)
    requires WF(t, S) && HasLeaf(t, k) && HasLeaf(t, k') && Within(k, k')
    ensures k == k'
    decreases t
  {
    if t.kids != [] {
      var i :| 0 <= i < |t.kids| && HasLeaf(t.kids[i], k);
      var j :| 0 <= j < |t.kids| && HasLeaf(t.kids[j], k');
      LeafWithin(t.kids[i], S, k);
      LeafWithin(t.kids[j], S, k');
      KidsWithin(t, S);
      assert Within(KeyOf(t.kids[i]), k');
      QuarterOfWithin(t.cx, t.cz, t.scale, i, k');
      QuarterOfWithin(t.cx, t.cz, t.scale, j, k');
      LeavesNest(t.kids[i], S, k, k');
    }
  }
}
