# Quadtree terrain level of detail, modelled in Dafny

This project models the core of a Unity terrain that uses a Röttger-style quadtree for level of
detail. It has three linked parts:

- **The error grid** (`Terrain.quadMatrix`). This is a flat `int` array of side
  `quadSize = scale + 1`; cell `(x, z)` sits at index `z * quadSize + x`.
  - The constructor fills every cell with 1.
  - `PropagateRoughness` then walks the detail levels `edgeLen = 4, 8, …, scale`. At each level it
    visits the cell centres `edgeLen/2 + k·edgeLen`.
  - At each centre it writes seven cells: the error value (at least 1, and above level 4 raised to
    the bounded neighbour cells) at the centre and at `x - 1`, a height proxy at `x + 1`, and a
    running maximum into the four diagonal corners.
- **The per-frame refinement** (`Terrain.RefineNode`, driven by `Terrain.Update`). It walks the
  patch quadtree depth first.
  - A culled patch gets cell 0 and its renderers are switched off.
  - A visible patch gets blend value 0 (fine enough) or 255.
  - On 0 the patch becomes active. If it has children, their cells and its own are restored from
    the cell to the left, and the children are merged away.
  - On 255 a leaf of edge at least 4 is subdivided. Then the children are visited in order.
- **The patch and its crack-free mesh** (`TerrainPatch`).
  - `Generate` computes a 4-bit neighbour mask from the grid cells one patch edge away.
  - It returns early when nothing changed. Otherwise it lays out a 3×3 lattice, dropping each
    edge midpoint whose neighbour bit is set, and triangulates it as a fan around the centre.
  - `SubDivide`, `Merge`, `Dispose`, `Clear` and `Texturize` manage the tree and the flags.

Files and modules:

- `grid.dfy` (module `ErrorGrid`). Flat indexing and powers of two. The arithmetic of one roughness
  step on exact reals. The seven stores of a centre. `Roughened`, the whole propagation as a
  function of the grid it starts from, defined as a walk over levels, rows and centres.
- `mesh.dfy` (module `PatchMesh`).
  - The neighbour bits `Forward = 1`, `Back = 2`, `Left = 4`, `Right = 8` and the mask function.
  - The vertex layout, and the triangle fan.
  - Lemmas that every triangle of the fan has the same orientation and that their signed areas
    add up to the area of the patch's square.
- `quadtree.dfy` (module `QuadTree`). The patch tree as a value `Node`. `Darken`, `Subdivide`,
  `Merge` and `Retired` are the tree operations. `Refine`, `Collapse`, `Descend` and `RefineKids`
  are the specification of `RefineNode`, and the lemmas state what it promises.
- `planet.dfy` (module `Planet`). The classes `Terrain` and `Patch`.
  - Their methods update the grid array, the tree and the patch fields in place.
  - Each method is proved against the specification functions above.

Modelling choices:

- The heightmap sampler `GetHeightAt` at integer grid points is an abstract function
  `height: (int, int) -> real`.
- `upperBound` is a constructor parameter.
- Float arithmetic is done on exact reals. `Mathf.CeilToInt` and the `(int)` cast, which truncates
  toward zero, are written out.
- The frustum test and the `f >= 1` test are oracles:
  - `visible(cx, cz, scale)`;
  - `fine(cx, cz, scale, v1, v2)`, which receives the grid cells right (`v1`) and left (`v2`) of
    the patch's cell as they are when the patch is visited.
- With the root at the origin, `scale` a power of two and edges at least 2, every patch centre is
  an integer. So a patch is identified by an integer centre and edge, and `PosX`/`PosZ` are exact.
- The terrain plane uses `left = (1, 0, 0)` and `forward = (0, 0, 1)`, as the one terrain built by
  the repository does.

A patch is added to the active list only when its blend value is 0
(`Assets/Planet/Terrain.cs:181-193`), and only a patch of edge at least 4 is subdivided
(`Assets/Planet/Terrain.cs:209-215`). So a visible leaf whose blend value is 255 and whose edge
is 2 is neither subdivided nor made active, and nothing of it is drawn that frame.
`QuadTree.RefineDescends` states this.

## Model

| member | source | states |
|---|---|---|
| ErrorGrid.Idx | Assets/Planet/Terrain.cs:82-85 | a cell of the square maps to an index inside the flat grid |
| ErrorGrid.IdxInjective | Assets/Planet/Terrain.cs:82-85 | two cells share a flat index exactly when they are the same cell |
| ErrorGrid.IdxSplit | Assets/Planet/Terrain.cs:82-85 | every flat index is cell (i % n, i / n) of the square |
| ErrorGrid.CeilToInt | Assets/Planet/Terrain.cs:253 | Mathf.CeilToInt gives the least integer not below its argument |
| ErrorGrid.TruncToInt | Assets/Planet/Terrain.cs:274-278 | the (int) cast truncates toward zero, for both signs |
| ErrorGrid.Deviation | Assets/Planet/Terrain.cs:238-251 | each of the six midpoint deviations is non-negative |
| ErrorGrid.Samples | Assets/Planet/Terrain.cs:258-285 | the height proxy always has sample points to take the maximum of |
| ErrorGrid.MaxDeviationIsMax | Assets/Planet/Terrain.cs:238-251 | the running maximum over the spans is the largest deviation: no span deviates more, and one deviates exactly that much |
| ErrorGrid.MaxHeightIsMax | Assets/Planet/Terrain.cs:258-285 | the running maximum over the sample points is the highest sample: no point is higher, and one is exactly that high |
| ErrorGrid.AroundInside | Assets/Planet/Terrain.cs:274-278 | the centre cell and its four neighbours half an edge away lie inside the grid |
| ErrorGrid.FloorBySpec | Assets/Planet/Terrain.cs:274-278 | the running max is at least the starting value and every bounded neighbour cell, and equals one of them |
| ErrorGrid.ErrorValueBounds | Assets/Planet/Terrain.cs:253-278 | the error value is at least 1 and at least the scaled roughness; above level 4 it is at least every bounded neighbour cell; it equals max(1, roughness) or one of those cells |
| ErrorGrid.CentreCells | Assets/Planet/Terrain.cs:270-294 | cells x-1, x and x+1 are adjacent and in bounds, and the four corners are in bounds, distinct and apart from the row cells |
| ErrorGrid.CornersDistinct | Assets/Planet/Terrain.cs:291-294 | the four diagonal cells of a centre are inside the grid and pairwise distinct |
| ErrorGrid.RowApartFromCorners | Assets/Planet/Terrain.cs:288-294 | no cell of the centre's row is one of its diagonal corners |
| ErrorGrid.Stores | Assets/Planet/Terrain.cs:270-294 | the seven writes of a centre keep the grid's size |
| ErrorGrid.StoresInFull | Assets/Planet/Terrain.cs:270-294 | the seven writes, in source order, are one update chain with every index in bounds |
| ErrorGrid.StoresEffect | Assets/Planet/Terrain.cs:270-294 | after a centre's writes, the centre and x-1 hold the error value, x+1 holds the height proxy, and each corner holds the max of its old value and the error value, so it never decreases |
| ErrorGrid.StoresFrame | Assets/Planet/Terrain.cs:288-294 | a centre's writes leave every other cell unchanged |
| ErrorGrid.OnLevelMod | Assets/Planet/Terrain.cs:234-236 | a centre of level e is e/2 plus a multiple of e |
| ErrorGrid.ModOnLevel | Assets/Planet/Terrain.cs:234-236 | every e/2 plus a multiple of e is a centre of level e |
| ErrorGrid.CentreOkAt | Assets/Planet/Terrain.cs:229-294 | for a power-of-two scale every centre visited has all seven written cells inside the grid |
| ErrorGrid.LevelEnd | Assets/Planet/Terrain.cs:234-236 | the row and column loops of a level stop exactly at scale + e/2 |
| ErrorGrid.NextOnLevel | Assets/Planet/Terrain.cs:234-236 | the next centre of a level is still a centre, at most scale + e/2 |
| ErrorGrid.Pow2Between | Assets/Planet/Terrain.cs:229-297 | the level loop ends with edgeLen exactly twice the scale |
| ErrorGrid.Reached | Assets/Planet/Terrain.cs:229-299 | the grid at each point of the walk has the grid's size |
| ErrorGrid.Roughened | Assets/Planet/Terrain.cs:227-299 | the propagated grid has the grid's size |
| ErrorGrid.StepMisses | Assets/Planet/Terrain.cs:288-294 | no write of a centre of a level below a patch's edge (nor of any other centre, for an edge-2 patch) reaches the patch's cell or the cell to its left |
| ErrorGrid.PairWalkSmall | Assets/Planet/Terrain.cs:230-297 | at every point of the propagation, the cell of an edge-2 patch and the cell to its left still hold their starting values |
| ErrorGrid.PairWalk | Assets/Planet/Terrain.cs:230-297 | once the patch's own centre has written its error value to its cell and the cell to its left (lines 288-289), those two cells agree at every later point of the propagation |
| ErrorGrid.RoughenedPair | Assets/Planet/Terrain.cs:227-299 | after the propagation, every patch's cell and the cell to its left hold the same value, given they start equal for edge-2 patches |
| ErrorGrid.WalkNextCentre | Assets/Planet/Terrain.cs:236-295 | one step of the walk applies the seven writes of the current centre, with the error value computed from the grid as it is at that point |
| ErrorGrid.WalkNextRow | Assets/Planet/Terrain.cs:234-236 | the walk passes from the end of one row to the start of the next without a write |
| ErrorGrid.WalkNextLevel | Assets/Planet/Terrain.cs:230-297 | the walk passes from the last row of level e to the first centre of level 2e without a write |
| PatchMesh.PopCount | Assets/Planet/TerrainPatch.cs:113-160 | vertCount, the number of mask bits set, is at most 4, and 0 only for the empty mask |
| PatchMesh.NeighbourMask | Assets/Planet/TerrainPatch.cs:116-160 | each bit is set exactly when its neighbour cell is inside the grid and holds neither 0 nor 255: forward at z+scale, back at z-scale, left at x+scale, right at x-scale |
| PatchMesh.LayoutSize | Assets/Planet/TerrainPatch.cs:185-198 | the layout has 9 - vertCount vertices and vertex 0 is lattice point (1,1) |
| PatchMesh.LayoutInLattice | Assets/Planet/TerrainPatch.cs:191-304 | every vertex is a point of the 3x3 lattice |
| PatchMesh.LayoutCorners | Assets/Planet/TerrainPatch.cs:200-304 | the four corners are always present |
| PatchMesh.LayoutMidpoints | Assets/Planet/TerrainPatch.cs:212-304 | an edge midpoint is present exactly when its back, left, forward or right bit is clear |
| PatchMesh.LayoutDistinct | Assets/Planet/TerrainPatch.cs:191-304 | no lattice point is laid out twice |
| PatchMesh.LayoutRing | Assets/Planet/TerrainPatch.cs:191-304 | the layout is the centre followed by the perimeter from (0,0) in the order (1,0), (2,0), (2,1), (2,2), (1,2), (0,2), (0,1), with dropped midpoints skipped |
| PatchMesh.StripShape | Assets/Planet/TerrainPatch.cs:308-314 | the loop's triangles are (0, vi+1, vi) for vi = 1.., three indices each |
| PatchMesh.FanShape | Assets/Planet/TerrainPatch.cs:307-318 | the fan has 3(len-1) = 24 - 3·vertCount indices: (0, vi+1, vi) for vi = 1..len-2, then (0, 1, len-1), every index in [0, len) |
| PatchMesh.RingSweep | Assets/Planet/TerrainPatch.cs:191-304 | the perimeter starts at (0,0); seen from the centre, each step to the next perimeter vertex turns the same way, and the steps sweep the 2x2 square's signed area once |
| PatchMesh.FanCoversPatch | Assets/Planet/TerrainPatch.cs:191-318 | every fan triangle indexes the layout, all have the same orientation, and their signed areas add up to that of the whole 2x2 patch square |
| QuadTree.CellInside | Assets/Planet/Terrain.cs:169-176 | a patch's cell and the cells right and left of it are inside the grid |
| QuadTree.CellEven | Assets/Planet/Terrain.cs:130-138 | a patch's cell has an even flat index, so the cell to its left is never a patch cell |
| QuadTree.Darken | Assets/Planet/Terrain.cs:140-150 | disabling renderers keeps a leaf a leaf and a parent a parent |
| QuadTree.DarkenSpec | Assets/Planet/Terrain.cs:140-150 | DisableRenderer switches off the patch and every descendant and changes nothing else of the tree |
| QuadTree.DarkenWF | Assets/Planet/Terrain.cs:140-150 | the darkened tree is still a well-formed quadtree |
| QuadTree.Subdivide | Assets/Planet/TerrainPatch.cs:383-400 | the patch keeps its position, ends disposed (renderer off, not generated) and gains four new leaves with renderer on and nothing generated |
| QuadTree.SubdivideWF | Assets/Planet/TerrainPatch.cs:383-400 | a subdivided leaf of edge at least 4 has four well-formed children of half its edge, centred at ∓scale/4 in the order (-,+), (+,+), (-,-), (+,-) |
| QuadTree.SubdivideTiles | Assets/Planet/TerrainPatch.cs:383-398 | the four children tile the parent: each unit square of the parent lies in exactly one child |
| QuadTree.RetiredSpec | Assets/Planet/TerrainPatch.cs:352-376 | Merge retires exactly the former descendants, each disposed and without children |
| QuadTree.RetiredKidsSpec | Assets/Planet/TerrainPatch.cs:357-361 | the children merged so far retire exactly themselves and their descendants |
| QuadTree.Merge | Assets/Planet/TerrainPatch.cs:352-364 | a leaf is left unchanged; otherwise the patch ends without children, and the retired patches are those of Retired, in the order they are cleared |
| QuadTree.RestoreKids | Assets/Planet/Terrain.cs:198-203 | restoring child cells keeps the grid's size |
| QuadTree.RestoreKidsOdd | Assets/Planet/Terrain.cs:198-203 | restoring never changes an odd-indexed cell, the only kind it reads |
| QuadTree.RestoreKidsFrame | Assets/Planet/Terrain.cs:198-203 | restoring leaves every cell that is not a child's as it was, so grandchildren's cells are not touched |
| QuadTree.RestoreKidsSpec | Assets/Planet/Terrain.cs:198-203 | each child's cell ends holding the value its left neighbour had before |
| QuadTree.Blend | Assets/Planet/Terrain.cs:176-188 | the blend value is 0 or 255 |
| QuadTree.Refine | Assets/Planet/Terrain.cs:152-225 | the refined tree is well formed and keeps the root's position; every active patch sits in the terrain, is no larger than the root and passed the frustum test |
| QuadTree.Collapse | Assets/Planet/Terrain.cs:191-206 | the blend-0 path leaves the patch a leaf and makes exactly it active |
| QuadTree.Descend | Assets/Planet/Terrain.cs:208-224 | the blend-255 path keeps the tree well formed; a leaf of edge at least 4 ends with 4 children and a parent keeps its children; every active patch is strictly smaller than the patch and visible |
| QuadTree.RefineKids | Assets/Planet/Terrain.cs:218-224 | the children are refined in order, each keeping its position; every active patch is smaller than the parent and visible |
| QuadTree.CollapseGrid | Assets/Planet/Terrain.cs:195-206 | on a parent, the four child cells and then its own cell are overwritten with their left neighbours' values, and no other cell changes |
| QuadTree.RefineCulled | Assets/Planet/Terrain.cs:158-163 | a culled patch gets cell 0, adds nothing to the active list, and keeps its subtree's shape with every renderer off |
| QuadTree.RefineActive | Assets/Planet/Terrain.cs:181-193 | a visible patch is active exactly when its blend value is 0; it then ends as a leaf and is the only active patch, and a leaf's cell ends as 0 |
| QuadTree.RefineDescends | Assets/Planet/Terrain.cs:209-224 | with blend 255 a leaf of edge at least 4 gains exactly 4 children and a parent keeps its children; a smaller leaf is unchanged, gets cell 255 and is not active |
| QuadTree.KidWithin | Assets/Planet/TerrainPatch.cs:383-400 | a child's square lies inside its parent's, its centre strictly inside, and the parent's centre is on the child's border |
| QuadTree.RefineMarksParent | Assets/Planet/Terrain.cs:208-224 | on the blend-255 path the patch's own cell still holds 255 after its children are refined |
| QuadTree.RefineOutside | Assets/Planet/Terrain.cs:152-225 | RefineNode writes no cell of a point outside the open square of the patch it starts from |
| QuadTree.RefineKidsOutside | Assets/Planet/Terrain.cs:218-224 | refining the children writes no cell of a point inside none of their open squares |
| QuadTree.RefineOdd | Assets/Planet/Terrain.cs:152-225 | RefineNode never changes an odd-indexed cell; the cell left of a patch's cell is odd, so the restores at lines 202 and 204 read cells no refinement has changed |
| QuadTree.RefineKidsOdd | Assets/Planet/Terrain.cs:218-224 | refining the children never changes an odd-indexed cell |
| QuadTree.RefineLeaves | Assets/Planet/Terrain.cs:152-225 | the active list holds no patch twice, and each active patch is a leaf of the refined tree and lies within the patch refined |
| QuadTree.RefineKidsLeaves | Assets/Planet/Terrain.cs:218-224 | refining the children in order gives an active list without repeats, each entry a leaf of the refined child whose quarter holds its centre |
| QuadTree.RootAligned | Assets/Planet/Terrain.cs:76 | the root patch, centred on the origin with the terrain's edge, sits on the lattice of its edge: both grid coordinates are odd multiples of half the edge |
| QuadTree.KidsAligned | Assets/Planet/TerrainPatch.cs:383-400 | the four children SubDivide makes of a patch on the lattice of its edge sit on the lattice of theirs |
| QuadTree.PatchPair | Assets/Planet/Terrain.cs:227-299 | after the construction's propagation over the all-ones grid, the cell of every such patch and the cell to its left hold the same value |
| QuadTree.CollapseRestores | Assets/Planet/Terrain.cs:196-205 | while the odd cells hold what the construction left there, a merge gives the parent's cell and each child's cell back the value the construction gave it |
| QuadTree.RestoredCell | Assets/Planet/Terrain.cs:202-204 | the odd cell a restore reads holds the value the construction gave the patch's own cell |
| QuadTree.LeafWithin | Assets/Planet/TerrainPatch.cs:383-400 | every leaf of a well-formed tree lies within the root's square and has edge at least 2 |
| QuadTree.LeavesNest | Assets/Planet/TerrainPatch.cs:383-400 | two leaves of a well-formed tree never nest: a leaf within another leaf is that leaf, so no active patch is the parent of another |
| Planet.Terrain.constructor | Assets/Planet/Terrain.cs:55-80 | the grid has (scale+1)^2 cells, all 1 before propagation; the root is a single patch at the origin; the grid ends as Roughened of the all-ones grid |
| Planet.Terrain.GetQuadMatrixData | Assets/Planet/Terrain.cs:82-85 | returns the cell at flat index z*quadSize + x |
| Planet.Terrain.GetQuadX | Assets/Planet/Terrain.cs:130-133 | the column of a patch is PosX + quadSize/2, with half the patch edge fitting on both sides |
| Planet.Terrain.GetQuadZ | Assets/Planet/Terrain.cs:135-138 | the row of a patch is PosZ + quadSize/2, with half the patch edge fitting on both sides |
| Planet.Terrain.PropagateRoughness | Assets/Planet/Terrain.cs:227-299 | the grid ends as Roughened of the grid it started from |
| Planet.Terrain.RoughenLevel | Assets/Planet/Terrain.cs:232-297 | one pass of the level loop walks every row of the level |
| Planet.Terrain.RoughenRow | Assets/Planet/Terrain.cs:236-295 | one pass of the row loop walks every centre of the row |
| Planet.Terrain.RoughnessStep | Assets/Planet/Terrain.cs:238-294 | one centre's computation and writes advance the walk by one centre |
| Planet.Terrain.CentreStores | Assets/Planet/Terrain.cs:270-294 | the seven writes of a centre, in source order |
| Planet.Terrain.CentreValues | Assets/Planet/Terrain.cs:238-286 | computes the centre's error value and height proxy as ErrorValue and HeightProxy define them |
| Planet.Terrain.FloorByNeighbours | Assets/Planet/Terrain.cs:273-278 | raises the error value to the bounded centre cell and then the cells at -x, +x, -z and +z |
| Planet.Terrain.Roughness | Assets/Planet/Terrain.cs:238-251 | d2 is MaxDeviation of the six spans, which MaxDeviationIsMax shows is the largest of the six deviations |
| Planet.Terrain.FinestProxy | Assets/Planet/Terrain.cs:258-270 | the level-4 height proxy is the ceiling of 255 times MaxHeight of the 3x3 samples, the highest of them by MaxHeightIsMax |
| Planet.Terrain.CoarseProxy | Assets/Planet/Terrain.cs:280-285 | the coarser height proxy is the ceiling of 255 times MaxHeight of the four quarter-edge diagonal samples, the highest of them by MaxHeightIsMax |
| Planet.Terrain.DisableRenderer | Assets/Planet/Terrain.cs:140-150 | returns the darkened tree |
| Planet.Terrain.RefineNode | Assets/Planet/Terrain.cs:152-225 | the new tree, the new grid and the appended active patches are those of Refine |
| Planet.Terrain.CollapseNode | Assets/Planet/Terrain.cs:191-206 | the blend-0 path on the grid array agrees with Collapse |
| Planet.Terrain.DescendNode | Assets/Planet/Terrain.cs:208-224 | the blend-255 path on the grid array agrees with Descend |
| Planet.Terrain.RestoreCells | Assets/Planet/Terrain.cs:198-203 | the child-cell loop agrees with RestoreKids |
| Planet.Terrain.RefineChildren | Assets/Planet/Terrain.cs:218-224 | the recursion over the children agrees with RefineKids |
| Planet.Terrain.FinalizeFace | Assets/Planet/Terrain.cs:99-128 | the patch ends finalized and textured; an already finalized patch is not touched |
| Planet.Terrain.Update | Assets/Planet/Terrain.cs:309-326 | without a camera nothing changes, the tree, the grid and every patch object included; otherwise the tree, grid and active list are those of Refine, every active patch has its renderer on and shows the mesh of its current neighbour mask, finalized; the parent of every active patch that was generated again ends disposed; no patch other than the active ones and their parents changes, and no odd-indexed cell changes |
| Planet.Terrain.RefineFace | Assets/Planet/Terrain.cs:317-318 | RefineNode from the root with an empty list gives the tree, grid and active list of Refine; the list holds distinct leaves of the new tree, and no odd-indexed cell changes |
| Planet.Terrain.DrawActive | Assets/Planet/Terrain.cs:321-325 | when no active patch is the parent of another, after the loop every active patch is drawn with its renderer on, every patch keeps its mesh coherent, the parent of every active patch that was generated again is disposed (TerrainPatch.cs lines 324-325), and only the active patches and their parents may change |
| Planet.Terrain.DrawPatch | Assets/Planet/Terrain.cs:323-324 | Generate then FinalizeFace leaves the patch drawn with its renderer on and keeps patches drawn earlier drawn, none of them being its parent; if the patch had to be generated again its parent ends disposed, and a disposed parent stays disposed |
| Planet.Patch.constructor | Assets/Planet/TerrainPatch.cs:55-105 | a new patch has its parent, centre and edge, renderer on and nothing generated, finalized or textured |
| Planet.Patch.MeshOnSquare | Assets/Planet/TerrainPatch.cs:79-88 | with the corner position at the centre moved back half an edge along left and forward, vertex 0 lies at the centre (PosX, PosZ), every vertex lies in the patch's square, and the corners (0,0) and (2,2) are at its two opposite corners |
| Planet.Patch.Dispose | Assets/Planet/TerrainPatch.cs:366-371 | renderer off and not generated |
| Planet.Patch.Clear | Assets/Planet/TerrainPatch.cs:373-377 | as Dispose |
| Planet.Patch.Texturize | Assets/Planet/TerrainPatch.cs:335-347 | the patch ends textured |
| Planet.Patch.NeighborMask | Assets/Planet/TerrainPatch.cs:113-160 | computes the mask NeighbourMask gives for the patch's cell and edge, and vertCount as its bit count |
| Planet.Patch.LayVertices | Assets/Planet/TerrainPatch.cs:185-304 | fills an array of exactly 9 - vertCount vertices with the layout of the mask |
| Planet.Patch.LaySide | Assets/Planet/TerrainPatch.cs:200-304 | writes one corner and, when its bit is clear, the following midpoint, advancing the slot counter by what it wrote |
| Planet.Patch.Triangulate | Assets/Planet/TerrainPatch.cs:307-318 | fills an array of 24 - 3·vertCount indices with the fan |
| Planet.Patch.Generate | Assets/Planet/TerrainPatch.cs:111-329 | renderer on. If already generated with an unchanged mask, the mesh, finalized and the parent are untouched. Otherwise neighborState becomes the new mask, the mesh is the layout and fan of that mask, finalized is cleared, the parent is disposed and the patch is generated |
| Planet.Patch.Regenerate | Assets/Planet/TerrainPatch.cs:172-328 | the rebuilding part of Generate for a given mask |

## Left out

- Floating point: heights, deviations and `upperBound` are exact reals. Float rounding is not
  modelled; `CeilToInt` and the `(int)` cast are.
- `GetHeightAt` and its bilinear sampling of a `Texture2D` are out of the model. They are the
  abstract `height` function at integer grid points.
- The Perlin and ridged-multifractal `noise` code is not part of this model; the terrain never calls it.
- `World.cs` is not part of this model. It is scene glue that builds one terrain of scale 256.
- The frustum planes, `TestPlanesAABB`, `Camera.main`'s position and the float `viewDistance`/`f`
  formula are left out. They appear as the `visible` and `fine` oracles and the `camera` flag of
  `Update`.
- Rendering-engine work is left out: vertex heights and UVs in `FinalizeFace` and `Generate`,
  normals and bounds, materials and shaders, `GameObject` creation, `Object.Destroy`. Only the
  flags they toggle are kept.
- The patch tree is a value (`QuadTree.Node`) held in `Terrain.face`, not a graph of `Patch`
  objects linked through `tree` and `parent`. So object identity and aliasing between tree
  nodes are not modelled.
  - The renderer and generated flags that the refinement changes live in the tree values.
  - The flags and meshes that `Generate` and `FinalizeFace` change live in `Patch` objects.
  - `Update` reaches the patch of each active tree position through a map `draw` from positions
    to objects. The model does not tie the two sets of flags together.
  - `Update` requires of `draw` that the parent of a patch object, if any, is the object of
    another square that contains it, as `SubDivide` makes it. That is what lets the model show that
    no active patch's `Generate` disposes another active patch.
- Planet.Terrain.constructor: requires `scale` to be a power of two of at least 2. The source accepts
  any scale. For some other scales the propagation indexes past the grid and the constructor throws
  `IndexOutOfRangeException`: with scale 7, the level of edge 4 reaches centre (2, 6) and reads its
  corner (0, 8), index 64 of the 64-cell grid (Assets/Planet/Terrain.cs:292). That error path is not
  modelled. Other scales (6, say) stay in range but subdivide into patches whose centres are not
  integers. `World.cs` passes 256.
- Planet.Terrain.DrawActive: requires the active list to hold no position twice. `RefineFace`
  states this of every list the refinement builds; a list with repeats is not modelled.
- Planet.Patch.Texturize: states only that the patch ends textured. The material set-up that the
  `textured` guard makes happen once is rendering work that is not modelled.
- Planet.Patch.Generate: the UV array is not modelled. It has the same length and slot order as
  the vertex array.
- Planet.Patch.Clear: states only the Dispose part, because `Object.Destroy` is not modelled.
- Planet.Terrain.FinalizeFace: the vertex displacement by `GetHeightAt` is not modelled.
- PosX/PosZ: the `(int)` truncation of the centre is exact, because every centre is an integer. The
  model stores the integer centre.
